/** catalog_url_compare.py: the reconciliation of `object_url` against `object_url_temp`,
    keyed by `digital_object_id`, archiving into `object_url_history` with the
    `deleted_from_object_url` flag. */
module CatalogUrlCompare {
  import opened Wrappers
  import opened Comparator
  import opened Reconcile

  /** The columns of `object_url`. */
  datatype Column = Naid | DigitalObjectUrl | DigitalObjectId | ScrapeTimestamp

  /** `all_columns`, in the script's order. */
  const AllColumns: seq<Column> := [Naid, DigitalObjectUrl, DigitalObjectId, ScrapeTimestamp]

  /** `ignore_columns`: only the scrape timestamp. */
  const IgnoreColumns: set<Column> := {ScrapeTimestamp}

  const ObjectUrl: Config<Column> := Config(DigitalObjectId, AllColumns, IgnoreColumns, true)

  /** Where a column sits in `all_columns`. */
  function Position(c: Column): (i: nat)
    ensures i < |AllColumns| && AllColumns[i] == c
  {
    match c
    case Naid => 0
    case DigitalObjectUrl => 1
    case DigitalObjectId => 2
    case ScrapeTimestamp => 3
  }

  /** Only the scrape timestamp is ignored: a change to the record's `naid`, the URL or
      the object id makes the row changed, and nothing else does. */
  lemma ChangedIffNotTimestamp(current: Row<Column>, staging: Row<Column>)
    requires WellFormedRow(current) && WellFormedRow(staging)
    ensures Changed(ObjectUrl, current, staging) <==>
      current[Naid] != staging[Naid] || current[DigitalObjectUrl] != staging[DigitalObjectUrl]
      || current[DigitalObjectId] != staging[DigitalObjectId]
  {
    ChangedIff(ObjectUrl, current, staging);
    if Changed(ObjectUrl, current, staging) {
      var c :| c in AllColumns && c !in IgnoreColumns && current[c] != staging[c];
      assert c != ScrapeTimestamp;
    } else {
      var _ := Position(Naid);
      var _ := Position(DigitalObjectUrl);
      var _ := Position(DigitalObjectId);
    }
  }

  /** The script's `main`: one run against `object_url` and `object_url_history`. Rows
      whose id left staging are archived with `deleted_from_object_url = TRUE`, rows
      replaced because of a difference with `FALSE`, all with the run timestamp. */
  method Synchronize(tables: SyncTables<Column>, staging: Table<Column>, ts: int)
    returns (removed: seq<Value>, replaced: seq<Value>)
    requires tables.cfg == ObjectUrl
    requires tables.Valid() && Keyed(ObjectUrl, staging)
    modifies tables
    ensures tables.Valid()
    ensures tables.current == RunCurrent(ObjectUrl, old(tables.current), staging)
    ensures Enumerates(removed, old(tables.current).Keys - staging.Keys)
    ensures Enumerates(replaced, ChangedKeys(ObjectUrl, old(tables.current), staging))
    ensures tables.history == old(tables.history)
                              + Archive(old(tables.current), removed, ts, Some(true))
                              + Archive(old(tables.current), replaced, ts, Some(false))
  {
    removed, replaced := tables.Run(staging, ts);
  }
}
