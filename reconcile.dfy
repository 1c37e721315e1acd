/** The three-phase reconciliation that catalog_compare.py and catalog_url_compare.py
    both run: insert the staging rows whose key is new, archive and delete the current
    rows whose key left staging, then archive-and-replace every current row whose
    compared columns differ from its staging row. The engine is generic in the
    column set; each script is one `Config`. */
module Reconcile {
  import opened Wrappers
  import opened Comparator

  /** One table keyed by the value of its key column (a `naid` or a `digital_object_id`). */
  type Table<C> = map<Value, Row<C>>

  /** The static description of one script: the key column, `all_columns`, `ignore_columns`,
      and whether its history table has the `deleted_from_*` flag column. */
  datatype Config<C> = Config(keyColumn: C, allColumns: seq<C>, ignoreColumns: set<C>, flagged: bool)

  /** A row of the history table: the archived row, the run's `history_timestamp`, and
      the `deleted_from_*` flag where the history table has one. */
  datatype HistoryRow<C> = HistoryRow(row: Row<C>, historyTimestamp: int, deletedFromCurrent: Option<bool>)

  /** The flag written by the archive-removed phase (`TRUE AS h_deleted_from_object_url`). */
  function RemovedFlag<C>(cfg: Config<C>): Option<bool>
  {
    if cfg.flagged then Some(true) else None
  }

  /** The flag written by the diff-and-replace phase (`FALSE AS h_deleted_from_object_url`). */
  function ReplacedFlag<C>(cfg: Config<C>): Option<bool>
  {
    if cfg.flagged then Some(false) else None
  }

  /** A row holds a value for every column of the table's schema `C`. */
  ghost predicate WellFormedRow<C(!new)>(row: Row<C>)
  {
    forall c :: c in row
  }

  /** Every row is well formed and is stored under the value of its own key column:
      one row per key, as a map keyed by the natural identifier. */
  ghost predicate Keyed<C(!new)>(cfg: Config<C>, t: Table<C>)
  {
    forall k :: k in t ==> WellFormedRow(t[k]) && t[k][cfg.keyColumn] == k
  }

  /** `s` lists every element of `keys` exactly once. */
  ghost predicate Enumerates(s: seq<Value>, keys: set<Value>)
  {
    && (forall k :: k in s <==> k in keys)
    && (forall i, j :: 0 <= i < j < |s| ==> s[i] != s[j])
  }

  /** The columns each script compares. */
  function Compared<C(==,!new)>(cfg: Config<C>): seq<C>
  {
    CompareColumns(cfg.allColumns, cfg.ignoreColumns)
  }

  /** The comparator's verdict: the `differences` map is non-empty. */
  predicate Changed<C(==,!new)>(cfg: Config<C>, current: Row<C>, staging: Row<C>)
    requires WellFormedRow(current) && WellFormedRow(staging)
  {
    AnyDifference(Compared(cfg), current, staging)
  }

  /** A pair of rows differs exactly when some non-ignored column differs: both
      directions, so a change confined to ignored columns never counts. */
  lemma ChangedIff<C(!new)>(cfg: Config<C>, current: Row<C>, staging: Row<C>)
    requires WellFormedRow(current) && WellFormedRow(staging)
    ensures Changed(cfg, current, staging) <==>
      exists c :: c in cfg.allColumns && c !in cfg.ignoreColumns && current[c] != staging[c]
  {
    AnyDifferenceIff(Compared(cfg), current, staging);
  }

  /** History rows for `keys`, in that order, each stamped with `ts` and `flag`. */
  function Archive<C>(t: Table<C>, keys: seq<Value>, ts: int, flag: Option<bool>): (h: seq<HistoryRow<C>>)
    requires forall k :: k in keys ==> k in t
    ensures |h| == |keys|
    ensures forall i :: 0 <= i < |h| ==> h[i] == HistoryRow(t[keys[i]], ts, flag)
  {
    if keys == [] then [] else [HistoryRow(t[keys[0]], ts, flag)] + Archive(t, keys[1..], ts, flag)
  }

  // ---------------------------------------------------------------------------
  // What each phase does to the current table, as functions of the tables.

  /** Insert-new: staging rows whose key is absent from current are added; nothing else changes. */
  function AfterInsert<C>(current: Table<C>, staging: Table<C>): (r: Table<C>)
    ensures r.Keys == current.Keys + staging.Keys
    ensures forall k :: k in current ==> r[k] == current[k]
    ensures forall k :: k in staging && k !in current ==> r[k] == staging[k]
  {
    current + (staging - current.Keys)
  }

  /** Archive-removed: only the current rows whose key is still staged remain. */
  function AfterArchive<C>(current: Table<C>, staging: Table<C>): (r: Table<C>)
    ensures r.Keys == current.Keys * staging.Keys
    ensures forall k :: k in r ==> r[k] == current[k]
  {
    map k | k in current && k in staging :: current[k]
  }

  /** The keys among `among` present in both tables whose rows the comparator finds different. */
  function ChangedAmong<C(==,!new)>(cfg: Config<C>, current: Table<C>, staging: Table<C>, among: set<Value>): (r: set<Value>)
    requires Keyed(cfg, current) && Keyed(cfg, staging)
    ensures forall k :: k in r <==> k in among && k in current && k in staging && Changed(cfg, current[k], staging[k])
  {
    set k | k in among && k in current && k in staging && Changed(cfg, current[k], staging[k])
  }

  /** The keys whose current row the diff-and-replace phase supersedes. */
  function ChangedKeys<C(==,!new)>(cfg: Config<C>, current: Table<C>, staging: Table<C>): set<Value>
    requires Keyed(cfg, current) && Keyed(cfg, staging)
  {
    ChangedAmong(cfg, current, staging, current.Keys)
  }

  /** The current table once the keys of `among` have been diffed and, where changed, replaced. */
  function ReplaceAmong<C(==,!new)>(cfg: Config<C>, current: Table<C>, staging: Table<C>, among: set<Value>): (r: Table<C>)
    requires Keyed(cfg, current) && Keyed(cfg, staging)
    ensures r.Keys == current.Keys
    ensures forall k :: k in r ==> r[k] == if k in ChangedAmong(cfg, current, staging, among) then staging[k] else current[k]
  {
    var changed := ChangedAmong(cfg, current, staging, among);
    map k | k in current :: if k in changed then staging[k] else current[k]
  }

  /** Diff-and-replace over every common key. */
  function AfterReplace<C(==,!new)>(cfg: Config<C>, current: Table<C>, staging: Table<C>): Table<C>
    requires Keyed(cfg, current) && Keyed(cfg, staging)
  {
    ReplaceAmong(cfg, current, staging, current.Keys)
  }

  /** The current table after one whole run: the three phases in the scripts' order. */
  function RunCurrent<C(==,!new)>(cfg: Config<C>, current: Table<C>, staging: Table<C>): Table<C>
    requires Keyed(cfg, current) && Keyed(cfg, staging)
  {
    KeyedAfterInsert(cfg, current, staging);
    var inserted := AfterInsert(current, staging);
    AfterReplace(cfg, AfterArchive(inserted, staging), staging)
  }

  // ---------------------------------------------------------------------------
  // Facts about the phases.

  lemma KeyedAfterInsert<C(!new)>(cfg: Config<C>, current: Table<C>, staging: Table<C>)
    requires Keyed(cfg, current) && Keyed(cfg, staging)
    ensures Keyed(cfg, AfterInsert(current, staging))
  {
  }

  /** Inserting only new keys is idempotent: a second insert with the same staging set adds nothing. */
  lemma InsertIdempotent<C>(current: Table<C>, staging: Table<C>)
    ensures AfterInsert(AfterInsert(current, staging), staging) == AfterInsert(current, staging)
    ensures staging.Keys - AfterInsert(current, staging).Keys == {}
  {
  }

  /** After archive-removed no current key is missing from staging. */
  lemma ArchiveLeavesOnlyStagedKeys<C>(current: Table<C>, staging: Table<C>)
    ensures forall k :: k in AfterArchive(current, staging) ==> k in staging
    ensures AfterArchive(current, staging).Keys == current.Keys - (current.Keys - staging.Keys)
  {
  }

  /** Appending one key appends its one history row. */
  lemma {:induction false} ArchiveSnoc<C>(t: Table<C>, keys: seq<Value>, k: Value, ts: int, flag: Option<bool>)
    requires forall x :: x in keys ==> x in t
    requires k in t
    ensures Archive(t, keys + [k], ts, flag) == Archive(t, keys, ts, flag) + [HistoryRow(t[k], ts, flag)]
  {
    if keys != [] {
      assert (keys + [k])[1..] == keys[1..] + [k];
      ArchiveSnoc(t, keys[1..], k, ts, flag);
    }
  }

  /** History rows built from two tables that agree on the archived keys are the same. */
  lemma {:induction false} ArchiveAgrees<C>(t1: Table<C>, t2: Table<C>, keys: seq<Value>, ts: int, flag: Option<bool>)
    requires forall k :: k in keys ==> k in t1 && k in t2 && t1[k] == t2[k]
    ensures Archive(t1, keys, ts, flag) == Archive(t2, keys, ts, flag)
  {
    if keys != [] {
      ArchiveAgrees(t1, t2, keys[1..], ts, flag);
    }
  }

  /** A freshly inserted row equals its staging row, so the third phase supersedes
      exactly the rows that were current before the run and changed in staging. */
  lemma ChangedKeysOfRun<C(!new)>(cfg: Config<C>, current: Table<C>, staging: Table<C>)
    requires Keyed(cfg, current) && Keyed(cfg, staging)
    ensures Keyed(cfg, AfterArchive(AfterInsert(current, staging), staging))
    ensures ChangedKeys(cfg, AfterArchive(AfterInsert(current, staging), staging), staging)
         == ChangedKeys(cfg, current, staging)
  {
    var mid := AfterArchive(AfterInsert(current, staging), staging);
    forall k | k in mid && k !in current
      ensures !Changed(cfg, mid[k], staging[k])
    {
      NoDifferencesWithItself(Compared(cfg), staging[k]);
    }
  }

  /** What one run leaves in the current table, key by key: exactly the staged keys;
      a key that was new or changed holds its staging row; an unchanged key keeps its
      old row, which agrees with staging on every compared column. */
  lemma RunCoverage<C(!new)>(cfg: Config<C>, current: Table<C>, staging: Table<C>)
    requires Keyed(cfg, current) && Keyed(cfg, staging)
    ensures RunCurrent(cfg, current, staging).Keys == staging.Keys
    ensures Keyed(cfg, RunCurrent(cfg, current, staging))
    ensures forall k :: k in staging ==>
      RunCurrent(cfg, current, staging)[k] ==
        if k in current && !Changed(cfg, current[k], staging[k]) then current[k] else staging[k]
    ensures Settled(cfg, RunCurrent(cfg, current, staging), staging)
  {
    var inserted := AfterInsert(current, staging);
    var archived := AfterArchive(inserted, staging);
    ChangedKeysOfRun(cfg, current, staging);
    var r := AfterReplace(cfg, archived, staging);
    assert r == RunCurrent(cfg, current, staging);
    KeyedReplace(cfg, archived, staging, archived.Keys);
    forall k | k in staging
      ensures r[k] == if k in current && !Changed(cfg, current[k], staging[k]) then current[k] else staging[k]
      ensures !Changed(cfg, r[k], staging[k])
    {
      RunCoverageAt(cfg, current, staging, k);
    }
  }

  /** One staged key after a run. */
  lemma RunCoverageAt<C(!new)>(cfg: Config<C>, current: Table<C>, staging: Table<C>, k: Value)
    requires Keyed(cfg, current) && Keyed(cfg, staging)
    requires Keyed(cfg, AfterArchive(AfterInsert(current, staging), staging))
    requires k in staging
    ensures k in AfterReplace(cfg, AfterArchive(AfterInsert(current, staging), staging), staging)
    ensures AfterReplace(cfg, AfterArchive(AfterInsert(current, staging), staging), staging)[k]
         == if k in current && !Changed(cfg, current[k], staging[k]) then current[k] else staging[k]
    ensures !Changed(cfg, AfterReplace(cfg, AfterArchive(AfterInsert(current, staging), staging), staging)[k], staging[k])
  {
    var archived := AfterArchive(AfterInsert(current, staging), staging);
    assert k in archived && archived[k] == if k in current then current[k] else staging[k];
    NoDifferencesWithItself(Compared(cfg), staging[k]);
  }

  /** The current table reflects staging: the same keys, and no row the comparator
      would replace. */
  ghost predicate Settled<C(!new)>(cfg: Config<C>, current: Table<C>, staging: Table<C>)
    requires Keyed(cfg, current) && Keyed(cfg, staging)
  {
    && current.Keys == staging.Keys
    && forall k :: k in staging ==> !Changed(cfg, current[k], staging[k])
  }

  /** Insert-new with no new key changes nothing. */
  lemma InsertNothing<C>(current: Table<C>, staging: Table<C>)
    requires staging.Keys <= current.Keys
    ensures AfterInsert(current, staging) == current
  {
  }

  /** Archive-removed with no removed key changes nothing. */
  lemma ArchiveNothing<C>(current: Table<C>, staging: Table<C>)
    requires current.Keys <= staging.Keys
    ensures AfterArchive(current, staging) == current
  {
  }

  /** Diff-and-replace with no changed key changes nothing. */
  lemma ReplaceNothing<C(!new)>(cfg: Config<C>, current: Table<C>, staging: Table<C>)
    requires Keyed(cfg, current) && Keyed(cfg, staging)
    requires ChangedKeys(cfg, current, staging) == {}
    ensures AfterReplace(cfg, current, staging) == current
  {
  }

  /** A run over a settled table finds nothing to insert, archive or replace, and
      leaves the table as it is. */
  lemma RunOfSettled<C(!new)>(cfg: Config<C>, current: Table<C>, staging: Table<C>)
    requires Keyed(cfg, current) && Keyed(cfg, staging)
    requires Settled(cfg, current, staging)
    ensures staging.Keys - current.Keys == {} && current.Keys - staging.Keys == {}
    ensures ChangedKeys(cfg, current, staging) == {}
    ensures RunCurrent(cfg, current, staging) == current
  {
    assert ChangedKeys(cfg, current, staging) == {} by {
      assert forall k :: k !in ChangedKeys(cfg, current, staging);
    }
    InsertNothing(current, staging);
    ArchiveNothing(current, staging);
    ReplaceNothing(cfg, current, staging);
  }

  /** A second run with an unchanged staging set finds nothing new, nothing removed
      and nothing changed, so it changes neither current nor history. */
  lemma RunIdempotent<C(!new)>(cfg: Config<C>, current: Table<C>, staging: Table<C>)
    requires Keyed(cfg, current) && Keyed(cfg, staging)
    ensures Keyed(cfg, RunCurrent(cfg, current, staging))
    ensures staging.Keys - RunCurrent(cfg, current, staging).Keys == {}
    ensures RunCurrent(cfg, current, staging).Keys - staging.Keys == {}
    ensures ChangedKeys(cfg, RunCurrent(cfg, current, staging), staging) == {}
    ensures RunCurrent(cfg, RunCurrent(cfg, current, staging), staging) == RunCurrent(cfg, current, staging)
  {
    RunCoverage(cfg, current, staging);
    RunOfSettled(cfg, RunCurrent(cfg, current, staging), staging);
  }

  /** A run always leaves the current table settled. */
  lemma RunSettles<C(!new)>(cfg: Config<C>, current: Table<C>, staging: Table<C>)
    requires Keyed(cfg, current) && Keyed(cfg, staging)
    ensures Keyed(cfg, RunCurrent(cfg, current, staging))
    ensures Settled(cfg, RunCurrent(cfg, current, staging), staging)
  {
    RunCoverage(cfg, current, staging);
  }

  /** A list that enumerates the empty set is empty. */
  lemma EnumeratesNothing(s: seq<Value>)
    requires Enumerates(s, {})
    ensures s == []
  {
    EnumeratesCount(s, {});
  }

  /** On a settled table a run removes and replaces nothing, so it appends no history
      row: with an unchanged staging set, a second run leaves history as it was. */
  lemma SettledRunArchivesNothing<C(!new)>(cfg: Config<C>, current: Table<C>, staging: Table<C>,
                                           removed: seq<Value>, replaced: seq<Value>)
    requires Keyed(cfg, current) && Keyed(cfg, staging)
    requires Enumerates(removed, current.Keys - staging.Keys)
    requires Enumerates(replaced, ChangedKeys(cfg, current, staging))
    ensures Settled(cfg, current, staging) ==>
      removed == [] && replaced == [] && RunCurrent(cfg, current, staging) == current
  {
    if Settled(cfg, current, staging) {
      RunOfSettled(cfg, current, staging);
      EnumeratesNothing(removed);
      EnumeratesNothing(replaced);
    }
  }

  /** With the lists a run reports, a run on a settled table appends nothing to any
      history: `SyncTables.Run` leaves `history` as it was. */
  lemma SettledRunKeepsHistory<C(!new)>(cfg: Config<C>, current: Table<C>, staging: Table<C>,
                                        removed: seq<Value>, replaced: seq<Value>,
                                        log: seq<HistoryRow<C>>, ts: int)
    requires Keyed(cfg, current) && Keyed(cfg, staging)
    requires Enumerates(removed, current.Keys - staging.Keys)
    requires Enumerates(replaced, ChangedKeys(cfg, current, staging))
    requires Settled(cfg, current, staging)
    ensures log + Archive(current, removed, ts, RemovedFlag(cfg))
                + Archive(current, replaced, ts, ReplacedFlag(cfg)) == log
  {
    SettledRunArchivesNothing(cfg, current, staging, removed, replaced);
  }

  /** A row leaves the current table, or is overwritten, only if its key was removed
      from staging or changed; the two groups are disjoint, so each such row is
      archived once. */
  lemma LeavesOnlyWhenArchived<C(!new)>(cfg: Config<C>, current: Table<C>, staging: Table<C>)
    requires Keyed(cfg, current) && Keyed(cfg, staging)
    ensures forall k :: k in current && (k !in RunCurrent(cfg, current, staging) || RunCurrent(cfg, current, staging)[k] != current[k]) ==>
      k in (current.Keys - staging.Keys) + ChangedKeys(cfg, current, staging)
    ensures (current.Keys - staging.Keys) * ChangedKeys(cfg, current, staging) == {}
  {
    RunCoverage(cfg, current, staging);
  }

  /** Listing one more key enumerates one more key. */
  lemma EnumeratesAppend(s: seq<Value>, keys: set<Value>, k: Value)
    requires Enumerates(s, keys) && k !in keys
    ensures Enumerates(s + [k], keys + {k})
  {
    forall i, j | 0 <= i < j < |s + [k]| ensures (s + [k])[i] != (s + [k])[j] {
      if j == |s| {
        assert (s + [k])[i] == s[i];
      }
    }
  }

  /** One row of archive-removed: moving key `k` (not yet moved) extends the moved
      list, the deleted set and the history by exactly that key. */
  lemma MoveStep<C>(before: Table<C>, done: set<Value>, moved: seq<Value>, k: Value,
                    history: seq<HistoryRow<C>>, ts: int, flag: Option<bool>)
    requires done <= before.Keys && k in before && k !in done
    requires Enumerates(moved, done)
    ensures Enumerates(moved + [k], done + {k})
    ensures (before - done)[k] == before[k]
    ensures (before - done) - {k} == before - (done + {k})
    ensures history + Archive(before, moved, ts, flag) + [HistoryRow((before - done)[k], ts, flag)]
         == history + Archive(before, moved + [k], ts, flag)
  {
    EnumeratesAppend(moved, done, k);
    ArchiveSnoc(before, moved, k, ts, flag);
  }

  /** One common key of diff-and-replace that the comparator finds changed: the key is
      listed, its old row archived and its staging row installed. */
  lemma ReplaceStepChanged<C(!new)>(cfg: Config<C>, fetched: Table<C>, staging: Table<C>, done: set<Value>,
                                    replaced: seq<Value>, k: Value, history: seq<HistoryRow<C>>, ts: int, flag: Option<bool>)
    requires Keyed(cfg, fetched) && Keyed(cfg, staging)
    requires k in fetched && k in staging && k !in done
    requires Changed(cfg, fetched[k], staging[k])
    requires Enumerates(replaced, ChangedAmong(cfg, fetched, staging, done))
    ensures Enumerates(replaced + [k], ChangedAmong(cfg, fetched, staging, done + {k}))
    ensures (ReplaceAmong(cfg, fetched, staging, done) - {k})[k := staging[k]] == ReplaceAmong(cfg, fetched, staging, done + {k})
    ensures history + Archive(fetched, replaced, ts, flag) + [HistoryRow(fetched[k], ts, flag)]
         == history + Archive(fetched, replaced + [k], ts, flag)
  {
    var before := ChangedAmong(cfg, fetched, staging, done);
    ChangedAmongGrows(cfg, fetched, staging, done, k);
    EnumeratesAppend(replaced, before, k);
    ArchiveSnoc(fetched, replaced, k, ts, flag);
    ReplaceAmongGrows(cfg, fetched, staging, done, k);
  }

  /** Visiting a changed key adds it, and only it, to the changed keys seen so far. */
  lemma ChangedAmongGrows<C(!new)>(cfg: Config<C>, fetched: Table<C>, staging: Table<C>, done: set<Value>, k: Value)
    requires Keyed(cfg, fetched) && Keyed(cfg, staging)
    requires k in fetched && k in staging && k !in done
    requires Changed(cfg, fetched[k], staging[k])
    ensures ChangedAmong(cfg, fetched, staging, done + {k}) == ChangedAmong(cfg, fetched, staging, done) + {k}
    ensures k !in ChangedAmong(cfg, fetched, staging, done)
  {
  }

  /** Visiting a changed key puts its staging row in place of its fetched row. */
  lemma ReplaceAmongGrows<C(!new)>(cfg: Config<C>, fetched: Table<C>, staging: Table<C>, done: set<Value>, k: Value)
    requires Keyed(cfg, fetched) && Keyed(cfg, staging)
    requires k in fetched && k in staging && k !in done
    requires ChangedAmong(cfg, fetched, staging, done + {k}) == ChangedAmong(cfg, fetched, staging, done) + {k}
    ensures (ReplaceAmong(cfg, fetched, staging, done) - {k})[k := staging[k]] == ReplaceAmong(cfg, fetched, staging, done + {k})
  {
    var r0 := ReplaceAmong(cfg, fetched, staging, done);
    var r1 := ReplaceAmong(cfg, fetched, staging, done + {k});
    var r := (r0 - {k})[k := staging[k]];
    assert r.Keys == r1.Keys;
    forall x | x in r ensures r[x] == r1[x] {
    }
  }

  /** One common key of diff-and-replace that the comparator finds unchanged: nothing changes. */
  lemma ReplaceStepUnchanged<C(!new)>(cfg: Config<C>, fetched: Table<C>, staging: Table<C>, done: set<Value>, k: Value)
    requires Keyed(cfg, fetched) && Keyed(cfg, staging)
    requires k in fetched && k in staging
    requires !Changed(cfg, fetched[k], staging[k])
    ensures ChangedAmong(cfg, fetched, staging, done + {k}) == ChangedAmong(cfg, fetched, staging, done)
    ensures ReplaceAmong(cfg, fetched, staging, done + {k}) == ReplaceAmong(cfg, fetched, staging, done)
  {
    assert ChangedAmong(cfg, fetched, staging, done + {k}) == ChangedAmong(cfg, fetched, staging, done);
  }

  /** Replacing rows by their staging rows keeps the table keyed, and replacing over
      every common key is the diff-and-replace phase. */
  lemma KeyedReplace<C(!new)>(cfg: Config<C>, current: Table<C>, staging: Table<C>, among: set<Value>)
    requires Keyed(cfg, current) && Keyed(cfg, staging)
    ensures Keyed(cfg, ReplaceAmong(cfg, current, staging, among))
  {
  }

  /** Only common keys can change, so diffing the common keys is diffing every current key. */
  lemma ChangedAmongCommon<C(!new)>(cfg: Config<C>, current: Table<C>, staging: Table<C>, among: set<Value>)
    requires Keyed(cfg, current) && Keyed(cfg, staging)
    requires among == current.Keys * staging.Keys
    ensures ChangedAmong(cfg, current, staging, among) == ChangedKeys(cfg, current, staging)
    ensures ReplaceAmong(cfg, current, staging, among) == AfterReplace(cfg, current, staging)
  {
  }

  /** Deleting rows keeps the table keyed. */
  lemma KeyedRemove<C(!new)>(cfg: Config<C>, t: Table<C>, keys: set<Value>)
    requires Keyed(cfg, t)
    ensures Keyed(cfg, t - keys)
  {
  }

  /** An enumeration of a set is as long as the set: nothing is listed twice. */
  lemma {:induction false} EnumeratesCount(s: seq<Value>, keys: set<Value>)
    requires Enumerates(s, keys)
    ensures |s| == |keys|
    decreases |s|
  {
    if s == [] {
      assert forall k :: k !in keys;
      assert keys == {};
    } else {
      var x := s[|s| - 1];
      var init := s[..|s| - 1];
      assert s == init + [x];
      forall k ensures k in init <==> k in keys - {x} {
        if k in init {
          var i :| 0 <= i < |init| && init[i] == k;
          assert s[i] == k && i < |s| - 1;
        }
      }
      EnumeratesCount(init, keys - {x});
    }
  }

  // ---------------------------------------------------------------------------
  // The persisted tables and the three phases as statements that change them.

  /** The current table (`master` or `object_url`) and its append-only history table. */
  class SyncTables<C(==,!new)> {
    const cfg: Config<C>
    var current: Table<C>
    var history: seq<HistoryRow<C>>

    ghost predicate Valid()
      reads this
    {
      Keyed(cfg, current)
    }

    constructor (cfg: Config<C>, current: Table<C>, history: seq<HistoryRow<C>>)
      requires Keyed(cfg, current)
      ensures Valid()
      ensures this.cfg == cfg && this.current == current && this.history == history
    {
      this.cfg := cfg;
      this.current := current;
      this.history := history;
    }

    /** `INSERT INTO master ... WHERE NOT EXISTS (... m.naid = t.temp_naid)`. */
    method InsertNew(staging: Table<C>)
      requires Valid() && Keyed(cfg, staging)
      modifies this
      ensures Valid()
      ensures current == AfterInsert(old(current), staging)
      ensures history == old(history)
    {
      current := current + (staging - current.Keys);
    }

    /** `WITH moved_rows AS (DELETE ... RETURNING *, ts) INSERT INTO ..._history`: the
        rows to move are fixed once against staging, then each is appended to history
        and deleted. `moved` lists the moved keys in the order the statement returned them. */
    method ArchiveRemoved(staging: Table<C>, ts: int) returns (moved: seq<Value>)
      requires Valid()
      modifies this
      ensures Valid()
      ensures Enumerates(moved, old(current).Keys - staging.Keys)
      ensures current == AfterArchive(old(current), staging)
      ensures history == old(history) + Archive(old(current), moved, ts, RemovedFlag(cfg))
    {
      ghost var before := current;
      var rows, log := current, history;
      var gone := current.Keys - staging.Keys;
      ghost var done: set<Value> := {};
      moved := [];
      while gone != {}
        invariant done + gone == before.Keys - staging.Keys
        invariant done * gone == {}
        invariant Enumerates(moved, done)
        invariant rows == before - done
        invariant log == old(history) + Archive(before, moved, ts, RemovedFlag(cfg))
        decreases gone
      {
        var k :| k in gone;
        MoveStep(before, done, moved, k, old(history), ts, RemovedFlag(cfg));
        log := log + [HistoryRow(rows[k], ts, RemovedFlag(cfg))];
        rows := rows - {k};
        moved := moved + [k];
        done := done + {k};
        gone := gone - {k};
      }
      KeyedRemove(cfg, before, done);
      assert done == before.Keys - staging.Keys;
      assert rows == AfterArchive(before, staging);
      // The statement commits as one: both tables change together.
      current, history := rows, log;
    }

    /** The `for row in common_rows` loop: the common keys are fetched once with their
        current values; for each, a non-empty `differences` map archives the current row,
        deletes it and inserts the staging row. `replaced` lists the superseded keys in
        processing order. */
    method DiffAndReplace(staging: Table<C>, ts: int) returns (replaced: seq<Value>)
      requires Valid() && Keyed(cfg, staging)
      modifies this
      ensures Valid()
      ensures Enumerates(replaced, ChangedKeys(cfg, old(current), staging))
      ensures current == AfterReplace(cfg, old(current), staging)
      ensures history == old(history) + Archive(old(current), replaced, ts, ReplacedFlag(cfg))
    {
      var cols := CompareColumns(cfg.allColumns, cfg.ignoreColumns);
      var fetched := current;
      var rows, log := current, history;
      var pending := current.Keys * staging.Keys;
      ghost var done: set<Value> := {};
      replaced := [];
      while pending != {}
        invariant done + pending == fetched.Keys * staging.Keys
        invariant done * pending == {}
        invariant Enumerates(replaced, ChangedAmong(cfg, fetched, staging, done))
        invariant rows == ReplaceAmong(cfg, fetched, staging, done)
        invariant log == old(history) + Archive(fetched, replaced, ts, ReplacedFlag(cfg))
        decreases pending
      {
        var k :| k in pending;
        var differences := Differences(cols, fetched[k], staging[k]);
        DifferencesEmptyIff(cols, fetched[k], staging[k]);
        if differences != map[] {
          ReplaceStepChanged(cfg, fetched, staging, done, replaced, k, old(history), ts, ReplacedFlag(cfg));
          log := log + [HistoryRow(rows[k], ts, ReplacedFlag(cfg))];
          rows := rows - {k};
          rows := rows[k := staging[k]];
          replaced := replaced + [k];
        } else {
          ReplaceStepUnchanged(cfg, fetched, staging, done, k);
        }
        done := done + {k};
        pending := pending - {k};
      }
      KeyedReplace(cfg, fetched, staging, done);
      ChangedAmongCommon(cfg, fetched, staging, done);
      current, history := rows, log;
    }

    /** One run of the script's `main`: the three phases in order, all history rows
        stamped with the one run timestamp `ts`. */
    method Run(staging: Table<C>, ts: int) returns (removed: seq<Value>, replaced: seq<Value>)
      requires Valid() && Keyed(cfg, staging)
      modifies this
      ensures Valid()
      ensures current == RunCurrent(cfg, old(current), staging)
      ensures Enumerates(removed, old(current).Keys - staging.Keys)
      ensures Enumerates(replaced, ChangedKeys(cfg, old(current), staging))
      ensures history == old(history)
                         + Archive(old(current), removed, ts, RemovedFlag(cfg))
                         + Archive(old(current), replaced, ts, ReplacedFlag(cfg))
      ensures |history| >= |old(history)| && history[..|old(history)|] == old(history)
      ensures forall i :: |old(history)| <= i < |history| ==> history[i].historyTimestamp == ts
    {
      ghost var before := current;
      InsertNew(staging);
      ghost var inserted := current;
      removed := ArchiveRemoved(staging, ts);
      ArchiveAgrees(inserted, before, removed, ts, RemovedFlag(cfg));
      ghost var archived := current;
      ChangedKeysOfRun(cfg, before, staging);
      replaced := DiffAndReplace(staging, ts);
      ArchiveAgrees(archived, before, replaced, ts, ReplacedFlag(cfg));
    }
  }
}
