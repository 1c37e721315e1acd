/** catalog_compare.py: the reconciliation of `master` against `master_temp`, keyed by
    `naid`, archiving into `master_history` (which has no deletion flag). */
module CatalogCompare {
  import opened Wrappers
  import opened Comparator
  import opened Reconcile

  /** The columns of `master`; `master_temp` has the same columns under a `temp_` prefix
      and `master_history` under an `h_` prefix. */
  datatype Column =
    | Naid | Title | LevelOfDescription | ParentSeriesNaid | ParentSeriesTitle
    | ParentFileUnitNaid | ParentFileUnitTitle | Creator | InclusiveStartDate
    | InclusiveEndDate | CoverageStartDate | CoverageEndDate | LdrCount
    | SeriesExtents | AccessRestrictionStatus | SpecificAccessRestrictions | AccessionNumbers
    | DispositionAuthorityNumbers | CrccrcaNumber | ScopeAndContentNote
    | FunctionAndUseNote | GeneralNotes | ScrapeTimestamp

  /** `all_columns`, in the script's order. */
  const AllColumns: seq<Column> := [
    Naid, Title, LevelOfDescription, ParentSeriesNaid, ParentSeriesTitle,
    ParentFileUnitNaid, ParentFileUnitTitle, Creator, InclusiveStartDate,
    InclusiveEndDate, CoverageStartDate, CoverageEndDate, LdrCount,
    SeriesExtents, AccessRestrictionStatus, SpecificAccessRestrictions, AccessionNumbers,
    DispositionAuthorityNumbers, CrccrcaNumber, ScopeAndContentNote,
    FunctionAndUseNote, GeneralNotes, ScrapeTimestamp
  ]

  /** `ignore_columns`: the four date windows and the scrape timestamp. */
  const IgnoreColumns: set<Column> :=
    {InclusiveStartDate, InclusiveEndDate, CoverageStartDate, CoverageEndDate, ScrapeTimestamp}

  const Catalog: Config<Column> := Config(Naid, AllColumns, IgnoreColumns, false)

  /** Where a column sits in `all_columns`. */
  function Position(c: Column): (i: nat)
    ensures i < |AllColumns| && AllColumns[i] == c
  {
    match c
    case Naid => 0
    case Title => 1
    case LevelOfDescription => 2
    case ParentSeriesNaid => 3
    case ParentSeriesTitle => 4
    case ParentFileUnitNaid => 5
    case ParentFileUnitTitle => 6
    case Creator => 7
    case InclusiveStartDate => 8
    case InclusiveEndDate => 9
    case CoverageStartDate => 10
    case CoverageEndDate => 11
    case LdrCount => 12
    case SeriesExtents => 13
    case AccessRestrictionStatus => 14
    case SpecificAccessRestrictions => 15
    case AccessionNumbers => 16
    case DispositionAuthorityNumbers => 17
    case CrccrcaNumber => 18
    case ScopeAndContentNote => 19
    case FunctionAndUseNote => 20
    case GeneralNotes => 21
    case ScrapeTimestamp => 22
  }

  /** `all_columns` names every column of `master`. */
  lemma AllColumnsComplete()
    ensures forall c :: c in AllColumns
  {
    forall c ensures c in AllColumns {
      var i := Position(c);
    }
  }

  /** A master row and its staging row count as different exactly when they differ
      in a column other than the dates and `scrape_timestamp`. */
  lemma ChangedIffNotVolatile(current: Row<Column>, staging: Row<Column>)
    requires WellFormedRow(current) && WellFormedRow(staging)
    ensures Changed(Catalog, current, staging) <==> exists c :: c !in IgnoreColumns && current[c] != staging[c]
  {
    AllColumnsComplete();
    ChangedIff(Catalog, current, staging);
  }

  /** A record whose only changes are to its dates or its scrape timestamp is neither
      archived nor replaced: the run leaves its master row as it was. */
  lemma VolatileChangeKeepsRow(current: Table<Column>, staging: Table<Column>, k: Value)
    requires Keyed(Catalog, current) && Keyed(Catalog, staging)
    requires k in current && k in staging
    requires forall c :: c !in IgnoreColumns ==> current[k][c] == staging[k][c]
    ensures k !in ChangedKeys(Catalog, current, staging)
    ensures k in RunCurrent(Catalog, current, staging)
    ensures RunCurrent(Catalog, current, staging)[k] == current[k]
  {
    ChangedIffNotVolatile(current[k], staging[k]);
    RunCoverage(Catalog, current, staging);
  }

  /** The script's `main`: one run against `master` and `master_history`. Removed and
      replaced rows alike go to history with the run timestamp and no flag. */
  method Synchronize(tables: SyncTables<Column>, staging: Table<Column>, ts: int)
    returns (removed: seq<Value>, replaced: seq<Value>)
    requires tables.cfg == Catalog
    requires tables.Valid() && Keyed(Catalog, staging)
    modifies tables
    ensures tables.Valid()
    ensures tables.current == RunCurrent(Catalog, old(tables.current), staging)
    ensures Enumerates(removed, old(tables.current).Keys - staging.Keys)
    ensures Enumerates(replaced, ChangedKeys(Catalog, old(tables.current), staging))
    ensures tables.history == old(tables.history)
                              + Archive(old(tables.current), removed, ts, None)
                              + Archive(old(tables.current), replaced, ts, None)
  {
    removed, replaced := tables.Run(staging, ts);
  }
}
