# Catalogue change-tracking pipeline, modelled in Dafny

The pipeline keeps a local copy of an archival catalogue up to date and keeps a
history of every version it replaces.

- **catalog_scrape.py** flattens each catalogue record into one staging row of
  `master_temp` and one staging row of `object_url_temp` per digital object.
- **catalog_compare.py** reconciles `master` against `master_temp`, keyed by `naid`.
- **catalog_url_compare.py** reconciles `object_url` against `object_url_temp`,
  keyed by `digital_object_id`.
- **clean_up.py** empties both staging tables.

Each reconciliation runs three phases in order:

1. Insert every staging row whose key is not yet current.
2. Move every current row whose key left staging into the history table, stamped
   with the run's timestamp.
3. For each key present in both tables, compare the non-ignored columns. If any
   differs, archive the current row and replace it with the staging row.

The URL script's history table also records `deleted_from_object_url`: TRUE for
phase 2 and FALSE for phase 3.

## How the model is laid out

- `wrappers.dfy` (module `Wrappers`): `Option`, `Result` (usable with `:-`), and
  `Or`, which is `dict.get` with a default.
- `comparator.dfy` (module `Comparator`):
  - cell values and rows;
  - `compare_columns`;
  - the `differences` dict comprehension;
  - `AnyDifference`, the reference meaning of "some compared column differs".
- `reconcile.dfy` (module `Reconcile`): the three phases, written once for any
  column set.
  - A `Config` names the key column, `all_columns`, `ignore_columns`, and whether
    history rows carry the deletion flag.
  - Each phase is a function of the tables (`AfterInsert`, `AfterArchive`,
    `AfterReplace`, `RunCurrent`).
  - Each phase is also a method of the class `SyncTables`, which holds the current
    table and the append-only history. Each method is proved against its function.
- `catalog_compare.dfy` and `catalog_url_compare.dfy`: each script's columns, its
  ignored columns, and its `main`.
- `catalog_scrape.dfy` (module `CatalogScrape`):
  - the record as the search API returns it;
  - the two "last match" loops, as methods proved against a generic `Scan`;
  - the field expressions, with their `KeyError`/`IndexError` cases as `Result`
    failures;
  - the per-object URL rows;
  - the class `StagingTables`, whose `Load` runs the scrape loop and whose
    `CleanUp` models clean_up.py;
  - `MasterTable` and `UrlTable`, which read the staging sequences as the keyed
    tables the reconciliations take.

The run timestamp (`datetime.now()`) is a parameter `ts`. The set of records whose
database insert fails is a parameter `rejected`.

The staging rows from the scraper are sequences. The reconciliations take them as
maps keyed by `naid` or `digital_object_id`.

The three SQL statements that act on sets of rows have no defined order. The
insert of new rows is modelled as one map update, `SyncTables.InsertNew`, which
returns nothing. The other two are modelled by loops. Each step of such a loop
takes any remaining key, and the method returns the keys in the order it handled
them:

- the DELETE … RETURNING statement (`SyncTables.ArchiveRemoved`);
- the join that lists the common rows (`SyncTables.DiffAndReplace`).

Two behaviours of the code are easy to misread; the model follows the code:

- A row whose only changes are in ignored columns keeps its old values in those
  columns, including its old `scrape_timestamp`. Nothing refreshes them.
- A failed insert in the scraper does not skip just that record. The `conn.rollback()`
  undoes every row staged earlier in the run. This is listed under "## Findings".

## Model

| member | source | states |
|---|---|---|
| Comparator.CompareColumns | catalog_compare.py:36-37 | a column is compared exactly when it is in `all_columns` and not in `ignore_columns` |
| Comparator.CompareColumnsKeepOrder | catalog_compare.py:27-37 | the compared columns are a subsequence of `all_columns`, in its order, and no longer than it |
| Comparator.CompareColumnsDistinct | catalog_compare.py:27-37 | if `all_columns` has no repeated column, no column is compared twice |
| Comparator.Differences | catalog_compare.py:104-109 | the keys of `differences` are exactly the compared columns whose current and staging values are unequal, and each maps to its staging value |
| Comparator.DifferencesEmptyIff | catalog_compare.py:104-111 | `if differences:` is taken exactly when some compared column differs |
| Comparator.AnyDifferenceIff | catalog_compare.py:104-111 | "some compared column differs" holds exactly when some column of the list has unequal values |
| Comparator.NoDifferencesWithItself | catalog_compare.py:104-111 | a row compared with itself has no differences |
| Reconcile.ChangedIff | catalog_compare.py:99-111 | a pair of rows counts as changed exactly when a column outside `ignore_columns` differs (both directions) |
| Reconcile.Archive | catalog_compare.py:71-86 | one history row per archived key, in order, each holding that key's current row, the run timestamp and the flag |
| Reconcile.AfterInsert | catalog_compare.py:56-67 | after insert-new the keys are current ∪ staging; existing rows are untouched; new keys hold their staging row |
| Reconcile.InsertIdempotent | catalog_compare.py:56-67 | a second insert-new with the same staging adds nothing, and no staged key is left absent |
| Reconcile.AfterArchive | catalog_compare.py:71-86 | after archive-removed the keys are current ∩ staging, with their rows unchanged |
| Reconcile.ArchiveLeavesOnlyStagedKeys | catalog_compare.py:71-86 | after archive-removed no current key is missing from staging |
| Reconcile.ChangedAmong | catalog_compare.py:89-111 | the keys diffed so far that are in both tables and whose rows differ |
| Reconcile.ReplaceAmong | catalog_compare.py:99-136 | replacing keeps the key set; a changed key holds its staging row and every other row is kept |
| Reconcile.ChangedKeys | catalog_compare.py:89-111 | the keys the diff-and-replace phase supersedes: the common keys whose rows differ in a compared column; `ChangedIff` and `ChangedKeysOfRun` state what that means |
| Reconcile.AfterReplace | catalog_compare.py:88-136 | the current table after diff-and-replace: `ReplaceAmong` over every current key, so each changed key holds its staging row and all other rows stay |
| Reconcile.RunCurrent | catalog_compare.py:51-136 | the current table after one run: insert-new, archive-removed, then diff-and-replace; `RunCoverage` and `RunSettles` state what it holds |
| Reconcile.ChangedKeysOfRun | catalog_compare.py:56-111 | a row inserted in phase 1 never differs from staging, so phase 3 replaces exactly the rows that were current before the run and changed |
| Reconcile.RunCoverage | catalog_compare.py:51-136 | after a run the keys are exactly the staged keys; new or changed keys hold the staging row; unchanged keys keep the old row; the table is settled |
| Reconcile.InsertNothing | catalog_compare.py:56-67 | insert-new with no new key changes nothing |
| Reconcile.ArchiveNothing | catalog_compare.py:71-86 | archive-removed with no removed key changes nothing |
| Reconcile.ReplaceNothing | catalog_compare.py:99-136 | diff-and-replace with no changed key changes nothing |
| Reconcile.RunOfSettled | catalog_compare.py:51-136 | a run over a table that already reflects staging inserts, archives and replaces nothing |
| Reconcile.RunSettles | catalog_compare.py:51-136 | a run always leaves the current table settled: the staged keys, and no row the comparator would replace |
| Reconcile.EnumeratesNothing | catalog_compare.py:71-86 | a list of keys that enumerates the empty set is empty |
| Reconcile.SettledRunArchivesNothing | catalog_compare.py:51-136 | on a settled table the lists of removed and replaced keys a run reports are empty and the table is unchanged |
| Reconcile.SettledRunKeepsHistory | catalog_compare.py:69-136 | on a settled table a run appends no history row: history followed by the run's archived rows is history unchanged |
| Reconcile.RunIdempotent | catalog_compare.py:51-136 | a second run with the same staging finds nothing new, removed or changed, and leaves the table as it is |
| Reconcile.LeavesOnlyWhenArchived | catalog_compare.py:69-136 | a row is removed or overwritten only if its key was removed or changed; those two groups are disjoint, so each row is archived at most once |
| Reconcile.EnumeratesCount | catalog_compare.py:71-86 | a list of archived keys that enumerates a set has exactly as many entries as the set |
| Reconcile.SyncTables.InsertNew | catalog_compare.py:56-67 | the current table becomes `AfterInsert`; history is untouched |
| Reconcile.SyncTables.ArchiveRemoved | catalog_compare.py:69-86 | each removed key is listed once and deleted; history gains exactly their rows, stamped with the run timestamp and the removal flag |
| Reconcile.SyncTables.DiffAndReplace | catalog_compare.py:88-136 | each changed key is listed once; its old row is appended to history with the replacement flag and then replaced by the staging row; unchanged keys stay as they are |
| Reconcile.SyncTables.Run | catalog_compare.py:51-136 | the three phases in order: the new current table is `RunCurrent`; history is the old history plus the removed rows, then the replaced rows; the old history is a prefix (append-only); every new history row has the one run timestamp |
| CatalogCompare.Position | catalog_compare.py:27-34 | each `master` column sits at its index in `all_columns` |
| CatalogCompare.AllColumnsComplete | catalog_compare.py:27-34 | `all_columns` names every column of `master` |
| CatalogCompare.ChangedIffNotVolatile | catalog_compare.py:23-37 | a master row counts as changed exactly when a column other than the four dates and `scrape_timestamp` differs |
| CatalogCompare.VolatileChangeKeepsRow | catalog_compare.py:24 | a record whose only changes are to dates or `scrape_timestamp` is neither archived nor replaced: its old row stays |
| CatalogCompare.Synchronize | catalog_compare.py:51-136 | one run against `master`: the new table, and history rows without a flag, all stamped with the run timestamp |
| CatalogUrlCompare.Position | catalog_url_compare.py:27-29 | each `object_url` column sits at its index in `all_columns` |
| CatalogUrlCompare.ChangedIffNotTimestamp | catalog_url_compare.py:23-32 | only `scrape_timestamp` is ignored: a URL row is changed exactly when its `naid`, URL or object id differs |
| CatalogUrlCompare.Synchronize | catalog_url_compare.py:46-133 | one run against `object_url`: removed rows go to history flagged TRUE (line 74), replaced rows flagged FALSE (line 112), all with the run timestamp |
| CatalogScrape.Scan | catalog_scrape.py:102-113 | the reference meaning of a "last match" loop: the value of the last matching element, or the first element's exception; its properties are `ScanTakesLast`, `ScanFails` and `ScanAbort` |
| CatalogScrape.Measurements | catalog_scrape.py:102-105 | the measurements the nested loop visits: those of every occurrence, in order, none from an occurrence without `holdingsMeasurements`; `FindLdrCount` is proved against it |
| CatalogScrape.ClassifyMeasurement | catalog_scrape.py:106-107 | reading `type` raises when it is missing; a "Logical Data Record" measurement takes its `count`, raising when that is missing; any other is skipped |
| CatalogScrape.ClassifyControlNumber | catalog_scrape.py:112-113 | an entry whose `note` is exactly the CRCCRCA note takes its `number`, raising when that is missing; any other, including one without `note`, is skipped |
| CatalogScrape.LogicalDate | catalog_scrape.py:125-128 | `.get(date, {}).get('logicalDate', "")`: the date's `logicalDate`, `""` when the date or its `logicalDate` is missing; stated in `AssembleFieldsDefaults` |
| CatalogScrape.ParentFields | catalog_scrape.py:120-123 | the four parent cells read from `ancestors[1]` and `ancestors[2]`; its properties are `ParentFieldsRule` and `ParentFieldsFail` |
| CatalogScrape.Fill | catalog_scrape.py:116-164 | the insert tuple built from the record, the two scanned values, the run timestamp and the already-read parents, headings, extent and restrictions; `AssembledTuple` ties `AssembleFields` to it |
| CatalogScrape.AssembleFields | catalog_scrape.py:116-136 | the field expressions in order, raising at the first `KeyError`/`IndexError`; its properties are `AssembledTuple`, `AssembleFieldsFails`, `AssembleFieldsParents`, `AssembleFieldsDefaults` and `AssembleFieldsJoins` |
| CatalogScrape.ExtractRow | catalog_scrape.py:96-136 | one record's extraction: the `ldr_count` scan, the CRCCRCA scan, then the fields; `ExtractRecord` computes it and `ExtractRowParts`, `ExtractedLdrCount`, `ExtractedCrccrcaNumber` state what it holds |
| CatalogScrape.Field | catalog_scrape.py:120-123 | indexing a key succeeds exactly when it is present, gives its value, and otherwise raises a `KeyError` naming the key |
| CatalogScrape.ScanAbort | catalog_scrape.py:102-113 | once a loop has raised, the elements after the faulting one do not matter |
| CatalogScrape.ScanFails | catalog_scrape.py:102-113 | a "last match" loop raises exactly when some element faults, and it raises the error of the first faulting element |
| CatalogScrape.ScanTakesLast | catalog_scrape.py:102-113 | a loop that finishes holds the value of the last matching element, or its initial value when nothing matched |
| CatalogScrape.FindLdrCount | catalog_scrape.py:102-107 | the nested occurrence/measurement loop computes the `ldr_count` scan, or the `KeyError` it runs into |
| CatalogScrape.LdrScanIsLast | catalog_scrape.py:102-107 | a finished `ldr_count` scan is the count of the last "Logical Data Record" measurement, or `""` when there is none |
| CatalogScrape.ExtractedLdrCount | catalog_scrape.py:98-107 | the `ldr_count` cell of an extracted row is the count of the last "Logical Data Record" measurement, or `""` |
| CatalogScrape.MissingTypeFails | catalog_scrape.py:106 | a measurement without `type` anywhere in the record makes extraction fail |
| CatalogScrape.FindCrccrcaNumber | catalog_scrape.py:110-113 | the `variantControlNumbers` loop computes the CRCCRCA scan, or the `KeyError` on `number` |
| CatalogScrape.CrccrcaScanIsLast | catalog_scrape.py:110-113 | a finished CRCCRCA scan is the number of the last entry with exactly that note, or `""` |
| CatalogScrape.ExtractedCrccrcaNumber | catalog_scrape.py:99-113 | the CRCCRCA cell of an extracted row is the number of the last entry with the exact note, or `""` |
| CatalogScrape.JoinBar | catalog_scrape.py:124 | `'|'.join` of an empty list is `""`, and of one element is that element |
| CatalogScrape.SplitJoin | catalog_scrape.py:124-136 | for a non-empty list of bar-free strings, splitting the join on `'|'` gives the list back |
| CatalogScrape.JoinBarEmpty | catalog_scrape.py:131-136 | a joined cell is `""` exactly when the list was empty or held only `""` |
| CatalogScrape.Collect | catalog_scrape.py:124 | the list comprehension raises exactly when some element lacks the key, with a `KeyError` naming it; otherwise it keeps each element's value, in order |
| CatalogScrape.SeriesExtent | catalog_scrape.py:129 | the first occurrence's `extent` or `""`; `""` when `physicalOccurrences` is missing; an `IndexError` exactly when it is an empty list |
| CatalogScrape.ToRow | catalog_scrape.py:140-164 | the insert tuple fills every `master_temp` column, each with its own field |
| CatalogScrape.AssembledTuple | catalog_scrape.py:116-136 | a successful assembly read the parents, creators, extent and restrictions without raising, and built the tuple from them |
| CatalogScrape.ParentFieldsFail | catalog_scrape.py:120-123 | reading the parents raises exactly when a used ancestor lacks `naId` or `title` |
| CatalogScrape.ParentFieldsRule | catalog_scrape.py:120-123 | the parent series comes from `ancestors[1]` when there are more than 1 ancestors, the file unit from `ancestors[2]` when there are more than 2, and otherwise they are `None` |
| CatalogScrape.AssembleFieldsFails | catalog_scrape.py:120-131 | the fields raise exactly when a used ancestor lacks `naId`/`title`, a creator lacks `heading`, `physicalOccurrences` is `[]`, or a restriction lacks `restriction` |
| CatalogScrape.AssembleFieldsParents | catalog_scrape.py:97-123 | the tuple carries the two scanned values and the run timestamp, and follows the `ancestors[1]` / `ancestors[2]` rule |
| CatalogScrape.AssembleFieldsDefaults | catalog_scrape.py:116-136 | every key the record lacks leaves `""` in its cell, including `logicalDate` inside a date object, `status` and `specificAccessRestrictions` inside `accessRestriction`, and `extent` inside the first occurrence |
| CatalogScrape.AssembleFieldsJoins | catalog_scrape.py:124-136 | the creator and restriction cells are joins of the elements' `heading`/`restriction` values, in order; the accession, disposition and general-note cells are joins of those lists |
| CatalogScrape.ExtractRowParts | catalog_scrape.py:96-136 | an extracted row holds the two scanned values and the run timestamp |
| CatalogScrape.ExtractRecord | catalog_scrape.py:96-136 | the extraction method (two loop nests, then the field expressions) computes the reference function `ExtractRow` |
| CatalogScrape.UrlRow | catalog_scrape.py:170-173 | the `object_url_temp` row of one object: the `naid` returned by the master insert, the URL and id (`None` when missing), and the run timestamp |
| CatalogScrape.UrlRows | catalog_scrape.py:170-173 | one URL row per digital object, in order |
| CatalogScrape.StagedOf | catalog_scrape.py:96-181 | records processed in order, given each record's extraction outcome: an extraction exception ends the run, and a rejected record adds nothing while every other record adds its master row and URL rows |
| CatalogScrape.Staged | catalog_scrape.py:96-181 | one run as intended, over the records' own extractions; `StagedFails`, `StagedAbort`, `StagedKeepsAccepted` and `StagedRowsOfRun` state its properties, and `StagingTables.Load` appends it |
| CatalogScrape.StagedAsWrittenOf | catalog_scrape.py:175-181 | the same loop as written: a rejected insert empties everything staged so far, because `conn.rollback()` runs before any commit |
| CatalogScrape.StagedAsWritten | catalog_scrape.py:96-181 | one run as written; `RollbackLosesEarlierRecords` shows it losing an accepted record that `Staged` keeps |
| CatalogScrape.RollbackLosesEarlierRecords | catalog_scrape.py:175-181 | as written, two records with the second rejected stage nothing; skipping only the rejected record keeps the first |
| CatalogScrape.StagedFails | catalog_scrape.py:96-181 | a run ends in an exception exactly when some record's extraction raises; rejected inserts never end it |
| CatalogScrape.StagedAbort | catalog_scrape.py:96-136 | once a record's extraction raises, the records after it do not matter |
| CatalogScrape.Accepted | catalog_scrape.py:96-181 | the reference list a run should stage: the rows of the successful extractions whose inserts were not rejected, in the order of the records |
| CatalogScrape.StagedInOrder | catalog_scrape.py:96-181 | the staged master rows are exactly `Accepted`: each accepted record's row once, in the order of the records |
| CatalogScrape.StagedKeepsAccepted | catalog_scrape.py:139-178 | the staged master rows are exactly the rows of the records whose inserts were not rejected |
| CatalogScrape.ExtractionsStamped | catalog_scrape.py:93-163 | every extracted row carries the one run timestamp |
| CatalogScrape.StagedRowsOfRun | catalog_scrape.py:165-173 | every staged row has the run timestamp; every URL row is complete and names the `naid` of a staged master row |
| CatalogScrape.StagingTables.Load | catalog_scrape.py:96-181 | an extraction exception leaves both staging tables as they were and reports the error; otherwise the run's master rows and URL rows are appended (committed) |
| CatalogScrape.StagingTables.CleanUp | clean_up.py:21-33 | both staging tables are emptied |
| CatalogScrape.MasterTable | catalog_compare.py:89-92 | `master_temp` as the join reads it: keyed by `naid`, with exactly the staged `naid`s as keys |
| CatalogScrape.MasterTableHoldsLast | catalog_compare.py:89-92 | each key of `MasterTable` holds the row of the last staged record with that `naid` |
| CatalogScrape.MasterTableAt | catalog_compare.py:89-92 | for one key, the position of the last staged row with that `naid`, and the table holds that row |
| CatalogScrape.UrlTable | catalog_url_compare.py:86-89 | `object_url_temp` as the join reads it: keyed by `digital_object_id`, with exactly the staged ids as keys |
| CatalogScrape.UrlTableHoldsLast | catalog_url_compare.py:86-89 | each key of `UrlTable` holds the last staged URL row with that `digital_object_id` |
| CatalogScrape.UrlTableAt | catalog_url_compare.py:86-89 | for one key, the position of the last staged URL row with that id, and the table holds that row |

## Left out

- Database connections, credentials, SSL settings and the secret store: these are environment, not logic.
- The HTTP request, the zip archive it arrives in and JSON parsing (catalog_scrape.py:27-50) are not modelled. The scraper starts from a sequence of decoded records.
- A `KeyError` from the response envelope (`body`, `hits`, `_source`, `record`) is not modelled, because the records are given directly.
- `datetime.now()` is a parameter `ts`, taken as an opaque integer.
- `print` output is not modelled.
- The compare scripts commit each statement separately. The model commits each phase as one step. An error part-way through a phase, and the blanket `except Exception`, are not modelled.
- The database's own rejection of an insert (a constraint violation, say) cannot be computed. It is the parameter `rejected`.
- SQL NULL keys behave differently in the model and in the source. A digital object without `objectId` gets a NULL `digital_object_id` (catalog_scrape.py:172). A record whose `naId` is `null` gets a NULL `naid`, if the database accepts it. In the model, `Null` is an ordinary key that equals itself. `UrlTable` or `MasterTable` keeps such a row, a run leaves it current, and a second run changes nothing. In the source, `o.digital_object_id = t.temp_digital_object_id` never holds for NULL (catalog_url_compare.py:56, 72, 89, and catalog_compare.py:61, 75, 92 for `naid`). On every run each such staging row is inserted by phase 1, then deleted and archived by phase 2 with flag TRUE. `RunCoverage`, `RunIdempotent` and `SettledRunKeepsHistory` therefore do not describe those rows.
- Outside key columns, `None` is compared as an ordinary value: `Null` equals `Null`, as the Python comparison loop computes it.
- Duplicate keys in a staging table are not modelled. The reconciliations take staging as a map, and `MasterTable`/`UrlTable` let a later row stand for an earlier one.
- The order of rows that set-based SQL statements return is left open (any order).
- A JSON `null` where the record holds a scalar (a title, a `naId`, a `count`) is the value `Null`, not a missing key. A list or object key whose value is `null` is treated like a missing key, because the model has no `null` list or object; the source would raise a `TypeError` or `AttributeError` on it, which is not modelled.
- A non-string element of a joined list, which would raise `TypeError`, cannot occur: the model's lists hold strings.
- Comparator.CompareColumns: the exact lists for the two scripts are not written out. The model characterises the compared columns by membership and order, and `ChangedIffNotVolatile`/`ChangedIffNotTimestamp` state which columns matter for each script.
- CatalogScrape.StagingTables.Load: the master rows are staged as field tuples (`MasterFields`), and `ToRow` names their columns.
- CatalogScrape.StagingTables.Load: follows the corrected behaviour (a rejected insert skips only its own record). The as-written rollback is `StagedAsWritten`.

## Findings

| source | as written | input that shows it | evidently intended | confidence | as-written member | corrected member |
|---|---|---|---|---|---|---|
| catalog_scrape.py:175-181 | after a failed insert, `conn.rollback()` undoes every insert since the start of the run, because nothing is committed before line 181; the loop then continues | two records whose second insert is rejected: the first record's rows are lost too | "Skip to the next record": only the failing record is dropped and earlier records stay staged | not executed | CatalogScrape.RollbackLosesEarlierRecords | CatalogScrape.StagedKeepsAccepted |
