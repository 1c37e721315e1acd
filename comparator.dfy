/** Table rows and the column-by-column comparator shared by both reconciliation
    scripts (catalog_compare.py and catalog_url_compare.py). */
module Comparator {

  /** A cell value as the database driver hands it to the scripts: SQL NULL (Python
      `None`), text, a number, or a timestamp (the run's `datetime.now()`, taken
      as an opaque integer). */
  datatype Value = Null | Str(s: string) | Int(i: int) | Stamp(t: int)

  /** A row maps every column of its table to a value. */
  type Row<C> = map<C, Value>

  /** `r` lists some of the elements of `s`, in the order they have in `s`. */
  predicate IsSubsequence<T(==)>(r: seq<T>, s: seq<T>)
    decreases |s|
  {
    r == [] || (s != [] && ((r[0] == s[0] && IsSubsequence(r[1..], s[1..])) || IsSubsequence(r, s[1..])))
  }

  /** The list comprehension `[col for col in all_columns if col not in ignore_columns]`:
      exactly the non-ignored columns, in their original order. */
  function CompareColumns<C(==,!new)>(all: seq<C>, ignore: set<C>): (r: seq<C>)
    ensures forall c :: c in r <==> c in all && c !in ignore
  {
    if all == [] then []
    else if all[0] in ignore then CompareColumns(all[1..], ignore)
    else [all[0]] + CompareColumns(all[1..], ignore)
  }

  /** The compare columns keep the order of `all_columns`. */
  lemma {:induction false} CompareColumnsKeepOrder<C(!new)>(all: seq<C>, ignore: set<C>)
    ensures IsSubsequence(CompareColumns(all, ignore), all)
    ensures |CompareColumns(all, ignore)| <= |all|
  {
    if all != [] {
      CompareColumnsKeepOrder(all[1..], ignore);
      var rest := CompareColumns(all[1..], ignore);
      if all[0] !in ignore {
        assert CompareColumns(all, ignore) == [all[0]] + rest;
        assert ([all[0]] + rest)[1..] == rest;
      }
    }
  }

  /** The `differences` dict comprehension: zip the compare columns with the current
      and staging values, keep the columns whose values are unequal, and map each
      to its staging value. */
  function Differences<C(==,!new)>(cols: seq<C>, current: Row<C>, staging: Row<C>): (d: map<C, Value>)
    requires forall c :: c in cols ==> c in current && c in staging
    ensures forall c :: c in d <==> c in cols && current[c] != staging[c]
    ensures forall c :: c in d ==> d[c] == staging[c]
  {
    if cols == [] then map[]
    else
      var rest := Differences(cols[1..], current, staging);
      if current[cols[0]] != staging[cols[0]] then rest[cols[0] := staging[cols[0]]] else rest
  }

  /** Some compare column holds unequal values: the reference meaning of "the
      `differences` map is non-empty". */
  predicate AnyDifference<C(==)>(cols: seq<C>, current: Row<C>, staging: Row<C>)
    requires forall c :: c in cols ==> c in current && c in staging
  {
    cols != [] && (current[cols[0]] != staging[cols[0]] || AnyDifference(cols[1..], current, staging))
  }

  /** The `differences` map is empty exactly when no compare column differs, so
      `if differences:` decides `AnyDifference`. */
  lemma {:induction false} DifferencesEmptyIff<C(!new)>(cols: seq<C>, current: Row<C>, staging: Row<C>)
    requires forall c :: c in cols ==> c in current && c in staging
    ensures Differences(cols, current, staging) == map[] <==> !AnyDifference(cols, current, staging)
  {
    if cols != [] {
      DifferencesEmptyIff(cols[1..], current, staging);
      var d := Differences(cols, current, staging);
      if current[cols[0]] != staging[cols[0]] {
        assert cols[0] in d;
      } else if AnyDifference(cols[1..], current, staging) {
        var d' := Differences(cols[1..], current, staging);
        var c :| c in d';
        assert c in cols;
        assert c in d;
      }
    }
  }

  /** `AnyDifference` holds exactly when some compare column differs. */
  lemma {:induction false} AnyDifferenceIff<C(!new)>(cols: seq<C>, current: Row<C>, staging: Row<C>)
    requires forall c :: c in cols ==> c in current && c in staging
    ensures AnyDifference(cols, current, staging) <==> exists c :: c in cols && current[c] != staging[c]
  {
    if cols != [] {
      AnyDifferenceIff(cols[1..], current, staging);
      if c :| c in cols && current[c] != staging[c] {
        if c != cols[0] {
          assert c in cols[1..];
        }
      }
    }
  }

  /** A row compared with itself has no differences. */
  lemma {:induction false} NoDifferencesWithItself<C>(cols: seq<C>, row: Row<C>)
    requires forall c :: c in cols ==> c in row
    ensures !AnyDifference(cols, row, row)
  {
    if cols != [] {
      NoDifferencesWithItself(cols[1..], row);
    }
  }

  /** Filtering a list without duplicates keeps it free of duplicates, so each
      compare column is compared exactly once. */
  lemma {:induction false} SubsequenceOfDistinct<T>(r: seq<T>, s: seq<T>)
    requires IsSubsequence(r, s)
    requires forall i, j :: 0 <= i < j < |s| ==> s[i] != s[j]
    ensures forall i, j :: 0 <= i < j < |r| ==> r[i] != r[j]
    decreases |s|
  {
    if r != [] && s != [] {
      if r[0] == s[0] && IsSubsequence(r[1..], s[1..]) {
        SubsequenceOfDistinct(r[1..], s[1..]);
        SubsequenceMembers(r[1..], s[1..]);
        forall j | 0 < j < |r| ensures r[0] != r[j] {
          assert r[j] == r[1..][j - 1];
          assert r[j] in s[1..];
        }
      } else {
        SubsequenceOfDistinct(r, s[1..]);
      }
    }
  }

  /** When `all_columns` has no repeated column, neither has the comparison list. */
  lemma CompareColumnsDistinct<C(!new)>(all: seq<C>, ignore: set<C>)
    requires forall i, j :: 0 <= i < j < |all| ==> all[i] != all[j]
    ensures forall i, j :: 0 <= i < j < |CompareColumns(all, ignore)| ==>
      CompareColumns(all, ignore)[i] != CompareColumns(all, ignore)[j]
  {
    CompareColumnsKeepOrder(all, ignore);
    SubsequenceOfDistinct(CompareColumns(all, ignore), all);
  }

  /** Every element of a subsequence occurs in the sequence. */
  lemma {:induction false} SubsequenceMembers<T>(r: seq<T>, s: seq<T>)
    requires IsSubsequence(r, s)
    ensures forall x :: x in r ==> x in s
    decreases |s|
  {
    if r != [] && s != [] {
      if r[0] == s[0] && IsSubsequence(r[1..], s[1..]) {
        SubsequenceMembers(r[1..], s[1..]);
        assert forall x :: x in r ==> x == r[0] || x in r[1..];
      } else {
        SubsequenceMembers(r, s[1..]);
      }
    }
  }
}
