/** catalog_scrape.py: flattening the catalogue's search hits into staging rows of
    `master_temp` (one per record) and `object_url_temp` (one per digital object),
    and clearing those staging tables again (clean_up.py). */
module CatalogScrape {
  import opened Wrappers
  import opened Comparator
  import opened Reconcile
  import Master = CatalogCompare
  import Url = CatalogUrlCompare

  // ---------------------------------------------------------------------------
  // The record as the search API returns it. Every key the script reads with
  // `.get` or guards with `in` is optional; values stay as JSON scalars.
  // ---------------------------------------------------------------------------

  datatype Measurement = Measurement(kind: Option<Value>, count: Option<Value>)

  datatype Occurrence = Occurrence(holdingsMeasurements: Option<seq<Measurement>>, extent: Option<Value>)

  datatype ControlNumber = ControlNumber(note: Option<Value>, number: Option<Value>)

  datatype Ancestor = Ancestor(naId: Option<Value>, title: Option<Value>)

  datatype Creator = Creator(heading: Option<string>)

  datatype DateObject = DateObject(logicalDate: Option<Value>)

  datatype SpecificRestriction = SpecificRestriction(restriction: Option<string>)

  datatype AccessRestriction =
    AccessRestriction(status: Option<Value>, specificAccessRestrictions: Option<seq<SpecificRestriction>>)

  datatype DigitalObject = DigitalObject(objectUrl: Option<Value>, objectId: Option<Value>)

  datatype Record = Record(
    naId: Option<Value>,
    title: Option<Value>,
    levelOfDescription: Option<Value>,
    physicalOccurrences: Option<seq<Occurrence>>,
    variantControlNumbers: Option<seq<ControlNumber>>,
    digitalObjects: Option<seq<DigitalObject>>,
    ancestors: Option<seq<Ancestor>>,
    creators: Option<seq<Creator>>,
    inclusiveStartDate: Option<DateObject>,
    inclusiveEndDate: Option<DateObject>,
    coverageStartDate: Option<DateObject>,
    coverageEndDate: Option<DateObject>,
    accessRestriction: Option<AccessRestriction>,
    accessionNumbers: Option<seq<string>>,
    dispositionAuthorityNumbers: Option<seq<string>>,
    scopeAndContentNote: Option<Value>,
    functionAndUse: Option<Value>,
    generalNotes: Option<seq<string>>)

  /** The exceptions raised outside the `try`: a `KeyError` on a required key, or the
      `IndexError` of `physicalOccurrences[0]` on an empty list. Either one ends the
      script before `conn.commit()`. */
  datatype ScrapeError = MissingKey(key: string) | NoPhysicalOccurrence

  const LogicalDataRecord: string := "Logical Data Record"
  const CrccrcaNote: string := "Civil Rights Cold Case Records Collection Act Request Number."

  /** The empty string the script uses as its default cell. */
  const Empty: Value := Str("")

  /** Reading `d[key]` where the key may be missing. */
  function Field(o: Option<Value>, key: string): (r: Result<Value, ScrapeError>)
    ensures r.Success? <==> o.Some?
    ensures r.Success? ==> r.value == o.value
    ensures r.Failure? ==> r.error == MissingKey(key)
  {
    if o.Some? then Success(o.value) else Failure(MissingKey(key))
  }

  // ---------------------------------------------------------------------------
  // "Last matching element" scans
  // ---------------------------------------------------------------------------

  /** What one element of a scan does: nothing, overwrite the running value, or raise. */
  datatype Verdict = Skip | Take(found: Value) | Fault(error: ScrapeError)

  /** A `for` loop that overwrites a variable on every matching element, run to its end
      or to its first exception, over the elements seen so far. */
  function Scan<T>(xs: seq<T>, classify: T -> Verdict, start: Value): Result<Value, ScrapeError>
    decreases |xs|
  {
    if xs == [] then Success(start)
    else
      var v :- Scan(xs[..|xs| - 1], classify, start);
      match classify(xs[|xs| - 1])
      case Skip => Success(v)
      case Take(x) => Success(x)
      case Fault(e) => Failure(e)
  }

  /** One more element extends a scan by that element's verdict. */
  lemma ScanSnoc<T>(xs: seq<T>, x: T, classify: T -> Verdict, start: Value)
    ensures Scan(xs + [x], classify, start) ==
      match Scan(xs, classify, start)
      case Failure(e) => Failure(e)
      case Success(v) =>
        match classify(x)
        case Skip => Success(v)
        case Take(y) => Success(y)
        case Fault(e) => Failure(e)
  {
    assert (xs + [x])[..|xs|] == xs;
  }

  /** Once a scan has raised, the elements after it are never looked at. */
  lemma {:induction false} ScanAbort<T>(xs: seq<T>, ys: seq<T>, classify: T -> Verdict, start: Value)
    requires Scan(xs, classify, start).Failure?
    ensures Scan(xs + ys, classify, start) == Scan(xs, classify, start)
    decreases |ys|
  {
    if ys != [] {
      var init := ys[..|ys| - 1];
      ScanAbort(xs, init, classify, start);
      assert xs + ys == (xs + init) + [ys[|ys| - 1]];
      ScanSnoc(xs + init, ys[|ys| - 1], classify, start);
    } else {
      assert xs + ys == xs;
    }
  }

  /** A scan raises exactly when some element faults, and then it raises the error of
      the first faulting element. */
  lemma {:induction false} ScanFails<T>(xs: seq<T>, classify: T -> Verdict, start: Value)
    ensures Scan(xs, classify, start).Failure? <==> exists i :: 0 <= i < |xs| && classify(xs[i]).Fault?
    ensures Scan(xs, classify, start).Failure? ==>
      exists i :: 0 <= i < |xs| && classify(xs[i]) == Fault(Scan(xs, classify, start).error)
        && forall j :: 0 <= j < i ==> !classify(xs[j]).Fault?
    decreases |xs|
  {
    if xs != [] {
      var init := xs[..|xs| - 1];
      var last := |xs| - 1;
      ScanFails(init, classify, start);
      forall j | 0 <= j < last ensures classify(xs[j]) == classify(init[j]) {
      }
      if Scan(init, classify, start).Failure? {
        var i :| 0 <= i < |init| && classify(init[i]) == Fault(Scan(init, classify, start).error)
          && forall j :: 0 <= j < i ==> !classify(init[j]).Fault?;
        assert classify(xs[i]) == Fault(Scan(xs, classify, start).error);
      } else if classify(xs[last]).Fault? {
        assert classify(xs[last]) == Fault(Scan(xs, classify, start).error);
      } else {
        forall i | 0 <= i < |xs| ensures !classify(xs[i]).Fault? {
          if i < last {
            assert !classify(init[i]).Fault?;
          }
        }
      }
    }
  }

  /** `v` is the value of the last element of `xs` that `classify` takes, or `start`
      when it takes none. */
  ghost predicate TakesLast<T>(xs: seq<T>, classify: T -> Verdict, start: Value, v: Value) {
    (v == start && forall i :: 0 <= i < |xs| ==> !classify(xs[i]).Take?)
    || exists i :: 0 <= i < |xs| && classify(xs[i]) == Take(v)
         && forall j :: i < j < |xs| ==> !classify(xs[j]).Take?
  }

  /** An element that is not taken leaves the last taken value as it was. */
  lemma TakesLastSnoc<T>(xs: seq<T>, x: T, classify: T -> Verdict, start: Value, v: Value)
    requires TakesLast(xs, classify, start, v) && !classify(x).Take?
    ensures TakesLast(xs + [x], classify, start, v)
  {
    var ys := xs + [x];
    if v == start && forall i :: 0 <= i < |xs| ==> !classify(xs[i]).Take? {
      forall i | 0 <= i < |ys| ensures !classify(ys[i]).Take? {
        if i < |xs| {
          assert ys[i] == xs[i];
        }
      }
    } else {
      var i :| 0 <= i < |xs| && classify(xs[i]) == Take(v)
        && forall j :: i < j < |xs| ==> !classify(xs[j]).Take?;
      assert ys[i] == xs[i];
      forall j | i < j < |ys| ensures !classify(ys[j]).Take? {
        if j < |xs| {
          assert ys[j] == xs[j];
        }
      }
    }
  }

  /** A scan that finishes holds the value of the last matching element, or its start
      value when nothing matched. */
  lemma {:induction false} ScanTakesLast<T>(xs: seq<T>, classify: T -> Verdict, start: Value)
    requires Scan(xs, classify, start).Success?
    ensures TakesLast(xs, classify, start, Scan(xs, classify, start).value)
    decreases |xs|
  {
    if xs != [] {
      var init := xs[..|xs| - 1];
      var x := xs[|xs| - 1];
      assert xs == init + [x];
      ScanTakesLast(init, classify, start);
      if classify(x).Take? {
        assert xs[|xs| - 1] == x;
      } else {
        TakesLastSnoc(init, x, classify, start, Scan(init, classify, start).value);
      }
    }
  }

  // ---------------------------------------------------------------------------
  // ldr_count
  // ---------------------------------------------------------------------------

  /** One holdings measurement in the `ldr_count` scan: reading `type` raises when it is
      missing, and a "Logical Data Record" measurement hands over its `count`. */
  function ClassifyMeasurement(m: Measurement): Verdict {
    match m.kind
    case None => Fault(MissingKey("type"))
    case Some(t) =>
      if t == Str(LogicalDataRecord) then
        match m.count
        case None => Fault(MissingKey("count"))
        case Some(n) => Take(n)
      else Skip
  }

  /** The holdings measurements of all physical occurrences, in order; an occurrence
      without `holdingsMeasurements` contributes none. */
  function Measurements(os: seq<Occurrence>): seq<Measurement>
    decreases |os|
  {
    if os == [] then []
    else Measurements(os[..|os| - 1]) + Or(os[|os| - 1].holdingsMeasurements, [])
  }

  /** The measurements visited before a faulting one are followed by the rest of the
      nested loop. */
  lemma MeasurementsSplit(os: seq<Occurrence>, i: nat, j: nat)
    requires i < |os| && os[i].holdingsMeasurements.Some? && j < |os[i].holdingsMeasurements.value|
    ensures Measurements(os) == Measurements(os[..i]) + os[i].holdingsMeasurements.value[..j + 1]
                                + (os[i].holdingsMeasurements.value[j + 1..] + Measurements(os[i + 1..]))
  {
    var ms := os[i].holdingsMeasurements.value;
    MeasurementsAppend(os[..i + 1], os[i + 1..]);
    assert os[..i + 1] + os[i + 1..] == os;
    assert os[..i + 1][..i] == os[..i];
    assert ms == ms[..j + 1] + ms[j + 1..];
    assert Measurements(os[..i + 1]) == Measurements(os[..i]) + ms;
  }

  lemma {:induction false} MeasurementsAppend(a: seq<Occurrence>, b: seq<Occurrence>)
    ensures Measurements(a + b) == Measurements(a) + Measurements(b)
    decreases |b|
  {
    if b == [] {
      assert a + b == a;
    } else {
      var init := b[..|b| - 1];
      MeasurementsAppend(a, init);
      assert (a + b)[..|a + b| - 1] == a + init;
    }
  }

  /** The `ldr_count` loop nest (lines 102-107): the count of the last "Logical Data
      Record" measurement, `""` when there is none, or the `KeyError` it runs into. */
  method FindLdrCount(physicalOccurrences: Option<seq<Occurrence>>) returns (r: Result<Value, ScrapeError>)
    ensures r == Scan(Measurements(Or(physicalOccurrences, [])), ClassifyMeasurement, Empty)
  {
    var ldrCount := Empty;
    if physicalOccurrences.Some? {
      var os := physicalOccurrences.value;
      for i := 0 to |os|
        invariant Scan(Measurements(os[..i]), ClassifyMeasurement, Empty) == Success(ldrCount)
      {
        MeasurementsSnoc(os, i);
        if os[i].holdingsMeasurements.Some? {
          var ms := os[i].holdingsMeasurements.value;
          assert Measurements(os[..i]) + ms[..0] == Measurements(os[..i]);
          for j := 0 to |ms|
            invariant Scan(Measurements(os[..i]) + ms[..j], ClassifyMeasurement, Empty) == Success(ldrCount)
          {
            var m := ms[j];
            ScanExtend(Measurements(os[..i]), ms, j, ClassifyMeasurement, Empty);
            if m.kind.None? {
              LdrAbort(os, i, j);
              return Failure(MissingKey("type"));
            }
            if m.kind.value == Str(LogicalDataRecord) {
              if m.count.None? {
                LdrAbort(os, i, j);
                return Failure(MissingKey("count"));
              }
              ldrCount := m.count.value;
            }
          }
          assert ms[..|ms|] == ms;
        } else {
          assert Measurements(os[..i + 1]) == Measurements(os[..i]);
        }
      }
      assert os[..|os|] == os;
    }
    return Success(ldrCount);
  }

  /** The measurements of one more occurrence follow those of the occurrences before it. */
  lemma MeasurementsSnoc(os: seq<Occurrence>, i: nat)
    requires i < |os|
    ensures Measurements(os[..i + 1]) == Measurements(os[..i]) + Or(os[i].holdingsMeasurements, [])
  {
    assert os[..i + 1][..i] == os[..i];
  }

  /** Scanning one more element of `ys` after `xs` applies that element's verdict. */
  lemma ScanExtend<T>(xs: seq<T>, ys: seq<T>, j: nat, classify: T -> Verdict, start: Value)
    requires j < |ys|
    ensures Scan(xs + ys[..j + 1], classify, start) ==
      match Scan(xs + ys[..j], classify, start)
      case Failure(e) => Failure(e)
      case Success(v) =>
        match classify(ys[j])
        case Skip => Success(v)
        case Take(y) => Success(y)
        case Fault(e) => Failure(e)
  {
    assert xs + ys[..j + 1] == (xs + ys[..j]) + [ys[j]];
    ScanSnoc(xs + ys[..j], ys[j], classify, start);
  }

  /** A `KeyError` at measurement `j` of occurrence `i` is the outcome of the whole nest. */
  lemma LdrAbort(os: seq<Occurrence>, i: nat, j: nat)
    requires i < |os| && os[i].holdingsMeasurements.Some? && j < |os[i].holdingsMeasurements.value|
    requires Scan(Measurements(os[..i]) + os[i].holdingsMeasurements.value[..j + 1], ClassifyMeasurement, Empty).Failure?
    ensures Scan(Measurements(os), ClassifyMeasurement, Empty)
         == Scan(Measurements(os[..i]) + os[i].holdingsMeasurements.value[..j + 1], ClassifyMeasurement, Empty)
  {
    MeasurementsSplit(os, i, j);
    var ms := os[i].holdingsMeasurements.value;
    ScanAbort(Measurements(os[..i]) + ms[..j + 1], ms[j + 1..] + Measurements(os[i + 1..]), ClassifyMeasurement, Empty);
  }

  // ---------------------------------------------------------------------------
  // CRCCRCA number
  // ---------------------------------------------------------------------------

  /** One variant control number in the CRCCRCA scan: only the exact note matches, and
      a matching entry must carry a `number`. */
  function ClassifyControlNumber(c: ControlNumber): Verdict {
    if c.note == Some(Str(CrccrcaNote)) then
      match c.number
      case None => Fault(MissingKey("number"))
      case Some(n) => Take(n)
    else Skip
  }

  /** The `variantControlNumbers` loop (lines 99, 110-113): the number of the last entry
      with the exact CRCCRCA note, `""` when there is none, or the `KeyError`. */
  method FindCrccrcaNumber(variantControlNumbers: Option<seq<ControlNumber>>) returns (r: Result<Value, ScrapeError>)
    ensures r == Scan(Or(variantControlNumbers, []), ClassifyControlNumber, Empty)
  {
    var number := Empty;
    if variantControlNumbers.Some? {
      var cs := variantControlNumbers.value;
      for i := 0 to |cs|
        invariant Scan(cs[..i], ClassifyControlNumber, Empty) == Success(number)
      {
        assert cs[..i + 1] == cs[..i] + [cs[i]];
        ScanSnoc(cs[..i], cs[i], ClassifyControlNumber, Empty);
        if cs[i].note.Some? && cs[i].note.value == Str(CrccrcaNote) {
          if cs[i].number.None? {
            assert cs == cs[..i + 1] + cs[i + 1..];
            ScanAbort(cs[..i + 1], cs[i + 1..], ClassifyControlNumber, Empty);
            return Failure(MissingKey("number"));
          }
          number := cs[i].number.value;
        }
      }
      assert cs[..|cs|] == cs;
    }
    return Success(number);
  }

  // ---------------------------------------------------------------------------
  // '|'-joined lists
  // ---------------------------------------------------------------------------

  /** `'|'.join(xs)`. */
  function JoinBar(xs: seq<string>): (s: string)
    ensures xs == [] ==> s == ""
    ensures |xs| == 1 ==> s == xs[0]
  {
    if xs == [] then ""
    else if |xs| == 1 then xs[0]
    else xs[0] + "|" + JoinBar(xs[1..])
  }

  /** Python's `s.split('|')`: the pieces between the bars, so `""` splits into `[""]`. */
  function SplitBar(s: string): (pieces: seq<string>)
    ensures |pieces| >= 1
    decreases |s|
  {
    if '|' !in s then [s]
    else
      var i := BarIndex(s);
      [s[..i]] + SplitBar(s[i + 1..])
  }

  /** Where the first `'|'` of `s` is. */
  function BarIndex(s: string): (i: nat)
    requires '|' in s
    ensures i < |s| && s[i] == '|' && '|' !in s[..i]
  {
    if s[0] == '|' then 0
    else
      assert '|' in s[1..];
      var i := 1 + BarIndex(s[1..]);
      assert s[..i] == [s[0]] + s[1..][..i - 1];
      i
  }

  /** The first bar of `a + "|" + b`, for a bar-free `a`, is the one between them. */
  lemma SplitAtFirstBar(a: string, b: string)
    requires '|' !in a
    ensures SplitBar(a + "|" + b) == [a] + SplitBar(b)
  {
    var s := a + "|" + b;
    assert s[|a|] == '|';
    var i := BarIndex(s);
    assert s[..i] == a;
    assert s[i + 1..] == b;
  }

  /** Joining a non-empty list of bar-free strings and splitting it again gives the
      list back: the join loses nothing. */
  lemma {:induction false} SplitJoin(xs: seq<string>)
    requires xs != []
    requires forall x :: x in xs ==> '|' !in x
    ensures SplitBar(JoinBar(xs)) == xs
  {
    if |xs| > 1 {
      assert xs[0] in xs;
      SplitAtFirstBar(xs[0], JoinBar(xs[1..]));
      SplitJoin(xs[1..]);
      assert xs == [xs[0]] + xs[1..];
    }
  }

  /** The joined string is empty exactly when there was nothing, or only an empty
      string, to join. */
  lemma {:induction false} JoinBarEmpty(xs: seq<string>)
    ensures JoinBar(xs) == "" <==> xs == [] || xs == [""]
  {
    if |xs| > 1 {
      assert |JoinBar(xs)| >= 1;
    }
  }

  /** The list comprehension `[x[key] for x in xs]`, which raises on the first element
      without the key. */
  function Collect<T>(xs: seq<T>, get: T -> Option<string>, key: string): (r: Result<seq<string>, ScrapeError>)
    ensures r.Failure? <==> exists i :: 0 <= i < |xs| && get(xs[i]).None?
    ensures r.Failure? ==> r.error == MissingKey(key)
    ensures r.Success? ==> |r.value| == |xs| && forall i :: 0 <= i < |xs| ==> get(xs[i]) == Some(r.value[i])
  {
    if xs == [] then Success([])
    else
      var first :- if get(xs[0]).Some? then Success(get(xs[0]).value) else Failure(MissingKey(key));
      var rest :- Collect(xs[1..], get, key);
      assert forall i :: 1 <= i < |xs| ==> xs[i] == xs[1..][i - 1];
      Success([first] + rest)
  }

  // ---------------------------------------------------------------------------
  // One staging row
  // ---------------------------------------------------------------------------

  /** The tuple handed to the `INSERT INTO MASTER_TEMP` statement, field by field. */
  datatype MasterFields = MasterFields(
    naid: Value, title: Value, levelOfDescription: Value,
    parentSeriesNaid: Value, parentSeriesTitle: Value,
    parentFileUnitNaid: Value, parentFileUnitTitle: Value, creator: Value,
    inclusiveStartDate: Value, inclusiveEndDate: Value,
    coverageStartDate: Value, coverageEndDate: Value, ldrCount: Value,
    seriesExtents: Value, accessRestrictionStatus: Value, specificAccessRestrictions: Value,
    accessionNumbers: Value, dispositionAuthorityNumbers: Value, crccrcaNumber: Value,
    scopeAndContentNote: Value, functionAndUseNote: Value, generalNotes: Value,
    scrapeTimestamp: Value)

  /** The placeholder each field fills, by column. */
  function Cell(f: MasterFields, c: Master.Column): Value {
    match c
    case Naid => f.naid
    case Title => f.title
    case LevelOfDescription => f.levelOfDescription
    case ParentSeriesNaid => f.parentSeriesNaid
    case ParentSeriesTitle => f.parentSeriesTitle
    case ParentFileUnitNaid => f.parentFileUnitNaid
    case ParentFileUnitTitle => f.parentFileUnitTitle
    case Creator => f.creator
    case InclusiveStartDate => f.inclusiveStartDate
    case InclusiveEndDate => f.inclusiveEndDate
    case CoverageStartDate => f.coverageStartDate
    case CoverageEndDate => f.coverageEndDate
    case LdrCount => f.ldrCount
    case SeriesExtents => f.seriesExtents
    case AccessRestrictionStatus => f.accessRestrictionStatus
    case SpecificAccessRestrictions => f.specificAccessRestrictions
    case AccessionNumbers => f.accessionNumbers
    case DispositionAuthorityNumbers => f.dispositionAuthorityNumbers
    case CrccrcaNumber => f.crccrcaNumber
    case ScopeAndContentNote => f.scopeAndContentNote
    case FunctionAndUseNote => f.functionAndUseNote
    case GeneralNotes => f.generalNotes
    case ScrapeTimestamp => f.scrapeTimestamp
  }

  /** The `master_temp` row the insert creates: every column filled. */
  function ToRow(f: MasterFields): (row: Row<Master.Column>)
    ensures WellFormedRow(row)
    ensures forall c :: row[c] == Cell(f, c)
  {
    Master.AllColumnsComplete();
    map c | c in Master.AllColumns :: Cell(f, c)
  }

  /** `{}.get('logicalDate', "")` after `record.get(dateKey, {})`. */
  function LogicalDate(d: Option<DateObject>): Value {
    if d.Some? then Or(d.value.logicalDate, Empty) else Empty
  }

  /** `record.get('ancestors', [])`. */
  function Ancestors(record: Record): seq<Ancestor> {
    Or(record.ancestors, [])
  }

  /** `record.get('accessRestriction', {}).get('specificAccessRestrictions', [])`. */
  function Restrictions(record: Record): seq<SpecificRestriction> {
    if record.accessRestriction.Some? then Or(record.accessRestriction.value.specificAccessRestrictions, []) else []
  }

  /** The parent series and parent file unit cells. */
  datatype Parents = Parents(seriesNaid: Value, seriesTitle: Value, unitNaid: Value, unitTitle: Value)

  /** Lines 120-123: the parent series from `ancestors[1]` when there are more than one
      ancestors, the parent file unit from `ancestors[2]` when there are more than two,
      `None` otherwise; reading a missing `naId` or `title` of a used ancestor raises. */
  function ParentFields(ancestors: seq<Ancestor>): Result<Parents, ScrapeError> {
    var seriesNaid :- if |ancestors| > 1 then Field(ancestors[1].naId, "naId") else Success(Null);
    var seriesTitle :- if |ancestors| > 1 then Field(ancestors[1].title, "title") else Success(Null);
    var unitNaid :- if |ancestors| > 2 then Field(ancestors[2].naId, "naId") else Success(Null);
    var unitTitle :- if |ancestors| > 2 then Field(ancestors[2].title, "title") else Success(Null);
    Success(Parents(seriesNaid, seriesTitle, unitNaid, unitTitle))
  }

  /** Line 129: the `extent` of the first physical occurrence, `""` when the record has
      no `physicalOccurrences` or the first has no `extent`; an empty list raises. */
  function SeriesExtent(occurrences: Option<seq<Occurrence>>): (r: Result<Value, ScrapeError>)
    ensures r.Failure? <==> occurrences == Some([])
    ensures r.Failure? ==> r.error == NoPhysicalOccurrence
    ensures occurrences.None? ==> r == Success(Empty)
    ensures r.Success? && occurrences.Some? ==> r.value == Or(occurrences.value[0].extent, Empty)
  {
    match occurrences
    case None => Success(Empty)
    case Some(os) => if os == [] then Failure(NoPhysicalOccurrence) else Success(Or(os[0].extent, Empty))
  }

  /** A creator's `heading`. */
  function Heading(c: Creator): Option<string> {
    c.heading
  }

  /** A specific access restriction's `restriction`. */
  function RestrictionText(r: SpecificRestriction): Option<string> {
    r.restriction
  }

  /** The staging tuple, once every cell that can raise has been read. */
  function Fill(record: Record, ldrCount: Value, crccrcaNumber: Value, ts: int,
                parents: Parents, headings: seq<string>, extent: Value, restrictions: seq<string>): MasterFields
  {
    var status := if record.accessRestriction.Some? then Or(record.accessRestriction.value.status, Empty) else Empty;
    MasterFields(
      Or(record.naId, Empty), Or(record.title, Empty), Or(record.levelOfDescription, Empty),
      parents.seriesNaid, parents.seriesTitle, parents.unitNaid, parents.unitTitle, Str(JoinBar(headings)),
      LogicalDate(record.inclusiveStartDate), LogicalDate(record.inclusiveEndDate),
      LogicalDate(record.coverageStartDate), LogicalDate(record.coverageEndDate), ldrCount,
      extent, status, Str(JoinBar(restrictions)),
      Str(JoinBar(Or(record.accessionNumbers, []))), Str(JoinBar(Or(record.dispositionAuthorityNumbers, []))),
      crccrcaNumber, Or(record.scopeAndContentNote, Empty), Or(record.functionAndUse, Empty),
      Str(JoinBar(Or(record.generalNotes, []))), Stamp(ts))
  }

  /** Lines 116-136, given the two scanned values: the staging tuple, or the first
      exception in the order the assignments run. */
  function AssembleFields(record: Record, ldrCount: Value, crccrcaNumber: Value, ts: int)
    : Result<MasterFields, ScrapeError>
  {
    var parents :- ParentFields(Ancestors(record));
    var headings :- Collect(Or(record.creators, []), Heading, "heading");
    var extent :- SeriesExtent(record.physicalOccurrences);
    var restrictions :- Collect(Restrictions(record), RestrictionText, "restriction");
    Success(Fill(record, ldrCount, crccrcaNumber, ts, parents, headings, extent, restrictions))
  }

  /** A successful assembly read every cell that can raise, and filled the tuple from them. */
  lemma AssembledTuple(record: Record, ldrCount: Value, crccrcaNumber: Value, ts: int)
    requires AssembleFields(record, ldrCount, crccrcaNumber, ts).Success?
    ensures var parents := ParentFields(Ancestors(record));
      var hs := Collect(Or(record.creators, []), Heading, "heading");
      var extent := SeriesExtent(record.physicalOccurrences);
      var rs := Collect(Restrictions(record), RestrictionText, "restriction");
      && parents.Success? && hs.Success? && extent.Success? && rs.Success?
      && AssembleFields(record, ldrCount, crccrcaNumber, ts).value
         == Fill(record, ldrCount, crccrcaNumber, ts, parents.value, hs.value, extent.value, rs.value)
  {
  }

  /** Reading the parents raises exactly when an ancestor that is used lacks `naId` or `title`. */
  lemma ParentFieldsFail(ancestors: seq<Ancestor>)
    ensures ParentFields(ancestors).Failure? <==>
      (|ancestors| > 1 && (ancestors[1].naId.None? || ancestors[1].title.None?))
      || (|ancestors| > 2 && (ancestors[2].naId.None? || ancestors[2].title.None?))
  {
  }

  /** Assembling the staging tuple raises exactly when a required key is missing: the
      `naId` or `title` of an ancestor that is used, a creator's `heading` or a specific
      restriction's `restriction`; or when `physicalOccurrences` is an empty list. */
  lemma AssembleFieldsFails(record: Record, ldrCount: Value, crccrcaNumber: Value, ts: int)
    ensures AssembleFields(record, ldrCount, crccrcaNumber, ts).Failure? <==>
      (|Ancestors(record)| > 1 && (Ancestors(record)[1].naId.None? || Ancestors(record)[1].title.None?))
      || (|Ancestors(record)| > 2 && (Ancestors(record)[2].naId.None? || Ancestors(record)[2].title.None?))
      || (exists i :: 0 <= i < |Or(record.creators, [])| && Or(record.creators, [])[i].heading.None?)
      || record.physicalOccurrences == Some([])
      || (exists i :: 0 <= i < |Restrictions(record)| && Restrictions(record)[i].restriction.None?)
  {
    ParentFieldsFail(Ancestors(record));
    var creators := Or(record.creators, []);
    var restrictions := Restrictions(record);
    assert (exists i :: 0 <= i < |creators| && Heading(creators[i]).None?)
       <==> (exists i :: 0 <= i < |creators| && creators[i].heading.None?);
    assert (exists i :: 0 <= i < |restrictions| && RestrictionText(restrictions[i]).None?)
       <==> (exists i :: 0 <= i < |restrictions| && restrictions[i].restriction.None?);
  }

  /** The parents read from a list of ancestors: `ancestors[1]` only when there are
      more than one, `ancestors[2]` only when there are more than two, else `None`. */
  lemma ParentFieldsRule(ancestors: seq<Ancestor>)
    requires ParentFields(ancestors).Success?
    ensures var p := ParentFields(ancestors).value;
      && (|ancestors| <= 1 ==> p.seriesNaid == Null && p.seriesTitle == Null)
      && (|ancestors| > 1 ==> Some(p.seriesNaid) == ancestors[1].naId && Some(p.seriesTitle) == ancestors[1].title)
      && (|ancestors| <= 2 ==> p.unitNaid == Null && p.unitTitle == Null)
      && (|ancestors| > 2 ==> Some(p.unitNaid) == ancestors[2].naId && Some(p.unitTitle) == ancestors[2].title)
  {
  }

  /** The tuple carries the two scanned values and the run timestamp; the parent
      series fields come from `ancestors[1]` only when there are more than one
      ancestors, the file-unit fields from `ancestors[2]` only when there are more
      than two, and otherwise they are `None`. */
  lemma AssembleFieldsParents(record: Record, ldrCount: Value, crccrcaNumber: Value, ts: int)
    requires AssembleFields(record, ldrCount, crccrcaNumber, ts).Success?
    ensures var f := AssembleFields(record, ldrCount, crccrcaNumber, ts).value;
      && f.ldrCount == ldrCount && f.crccrcaNumber == crccrcaNumber && f.scrapeTimestamp == Stamp(ts)
      && (|Ancestors(record)| <= 1 ==> f.parentSeriesNaid == Null && f.parentSeriesTitle == Null)
      && (|Ancestors(record)| > 1 ==>
            Some(f.parentSeriesNaid) == Ancestors(record)[1].naId && Some(f.parentSeriesTitle) == Ancestors(record)[1].title)
      && (|Ancestors(record)| <= 2 ==> f.parentFileUnitNaid == Null && f.parentFileUnitTitle == Null)
      && (|Ancestors(record)| > 2 ==>
            Some(f.parentFileUnitNaid) == Ancestors(record)[2].naId && Some(f.parentFileUnitTitle) == Ancestors(record)[2].title)
  {
    AssembledTuple(record, ldrCount, crccrcaNumber, ts);
    ParentFieldsRule(Ancestors(record));
  }

  /** Every key the record lacks leaves `""` in its cell. */
  lemma AssembleFieldsDefaults(record: Record, ldrCount: Value, crccrcaNumber: Value, ts: int)
    requires AssembleFields(record, ldrCount, crccrcaNumber, ts).Success?
    ensures var f := AssembleFields(record, ldrCount, crccrcaNumber, ts).value;
      && (record.naId.None? ==> f.naid == Empty)
      && (record.title.None? ==> f.title == Empty)
      && (record.levelOfDescription.None? ==> f.levelOfDescription == Empty)
      && (record.inclusiveStartDate.None? ==> f.inclusiveStartDate == Empty)
      && (record.inclusiveEndDate.None? ==> f.inclusiveEndDate == Empty)
      && (record.coverageStartDate.None? ==> f.coverageStartDate == Empty)
      && (record.coverageEndDate.None? ==> f.coverageEndDate == Empty)
      && (record.physicalOccurrences.None? ==> f.seriesExtents == Empty)
      && (record.accessRestriction.None? ==> f.accessRestrictionStatus == Empty && f.specificAccessRestrictions == Empty)
      && (record.creators.None? ==> f.creator == Empty)
      && (record.accessionNumbers.None? ==> f.accessionNumbers == Empty)
      && (record.dispositionAuthorityNumbers.None? ==> f.dispositionAuthorityNumbers == Empty)
      && (record.generalNotes.None? ==> f.generalNotes == Empty)
      && (record.scopeAndContentNote.None? ==> f.scopeAndContentNote == Empty)
      && (record.functionAndUse.None? ==> f.functionAndUseNote == Empty)
      // Keys missing one level down default in the same way.
      && (record.inclusiveStartDate.Some? && record.inclusiveStartDate.value.logicalDate.None? ==> f.inclusiveStartDate == Empty)
      && (record.inclusiveEndDate.Some? && record.inclusiveEndDate.value.logicalDate.None? ==> f.inclusiveEndDate == Empty)
      && (record.coverageStartDate.Some? && record.coverageStartDate.value.logicalDate.None? ==> f.coverageStartDate == Empty)
      && (record.coverageEndDate.Some? && record.coverageEndDate.value.logicalDate.None? ==> f.coverageEndDate == Empty)
      && (record.accessRestriction.Some? && record.accessRestriction.value.status.None? ==> f.accessRestrictionStatus == Empty)
      && ((record.accessRestriction.Some? && record.accessRestriction.value.specificAccessRestrictions.None?) ==>
            f.specificAccessRestrictions == Empty)
      && ((record.physicalOccurrences.Some? && record.physicalOccurrences.value != []
           && record.physicalOccurrences.value[0].extent.None?) ==> f.seriesExtents == Empty)
  {
    AssembledTuple(record, ldrCount, crccrcaNumber, ts);
  }

  /** The list cells are the `'|'`-joins of the lists: the creators' headings, the
      restrictions' texts, and the accession, disposition and general-note strings. */
  lemma AssembleFieldsJoins(record: Record, ldrCount: Value, crccrcaNumber: Value, ts: int)
    requires AssembleFields(record, ldrCount, crccrcaNumber, ts).Success?
    ensures var f := AssembleFields(record, ldrCount, crccrcaNumber, ts).value;
      var creators := Or(record.creators, []);
      var restrictions := Restrictions(record);
      && (exists hs: seq<string> :: |hs| == |creators| && f.creator == Str(JoinBar(hs))
            && forall i :: 0 <= i < |hs| ==> creators[i].heading == Some(hs[i]))
      && (exists rs: seq<string> :: |rs| == |restrictions| && f.specificAccessRestrictions == Str(JoinBar(rs))
            && forall i :: 0 <= i < |rs| ==> restrictions[i].restriction == Some(rs[i]))
      && f.accessionNumbers == Str(JoinBar(Or(record.accessionNumbers, [])))
      && f.dispositionAuthorityNumbers == Str(JoinBar(Or(record.dispositionAuthorityNumbers, [])))
      && f.generalNotes == Str(JoinBar(Or(record.generalNotes, [])))
  {
    AssembledTuple(record, ldrCount, crccrcaNumber, ts);
    var hs := Collect(Or(record.creators, []), Heading, "heading").value;
    var rs := Collect(Restrictions(record), RestrictionText, "restriction").value;
    assert forall i :: 0 <= i < |hs| ==> Or(record.creators, [])[i].heading == Some(hs[i]);
    assert forall i :: 0 <= i < |rs| ==> Restrictions(record)[i].restriction == Some(rs[i]);
  }

  /** The whole extraction of one record (lines 96-136): the `ldr_count` scan, then the
      CRCCRCA scan, then the remaining fields. */
  function ExtractRow(record: Record, ts: int): Result<MasterFields, ScrapeError> {
    var ldrCount :- Scan(Measurements(Or(record.physicalOccurrences, [])), ClassifyMeasurement, Empty);
    var crccrcaNumber :- Scan(Or(record.variantControlNumbers, []), ClassifyControlNumber, Empty);
    AssembleFields(record, ldrCount, crccrcaNumber, ts)
  }

  /** An extracted row is the staging tuple assembled from the two scanned values. */
  lemma ExtractRowParts(record: Record, ts: int)
    requires ExtractRow(record, ts).Success?
    ensures var ldrCount := Scan(Measurements(Or(record.physicalOccurrences, [])), ClassifyMeasurement, Empty);
      var crccrcaNumber := Scan(Or(record.variantControlNumbers, []), ClassifyControlNumber, Empty);
      && ldrCount.Success? && crccrcaNumber.Success?
      && ExtractRow(record, ts).value.ldrCount == ldrCount.value
      && ExtractRow(record, ts).value.crccrcaNumber == crccrcaNumber.value
      && ExtractRow(record, ts).value.scrapeTimestamp == Stamp(ts)
  {
    var ldrCount := Scan(Measurements(Or(record.physicalOccurrences, [])), ClassifyMeasurement, Empty);
    var crccrcaNumber := Scan(Or(record.variantControlNumbers, []), ClassifyControlNumber, Empty);
    AssembleFieldsParents(record, ldrCount.value, crccrcaNumber.value, ts);
  }

  /** A finished `ldr_count` scan holds the count of the last "Logical Data Record"
      measurement, or `""` when no measurement has that type. */
  lemma LdrScanIsLast(ms: seq<Measurement>, v: Value)
    requires Scan(ms, ClassifyMeasurement, Empty) == Success(v)
    ensures (v == Empty && forall i :: 0 <= i < |ms| ==> ms[i].kind != Some(Str(LogicalDataRecord)))
      || exists i :: 0 <= i < |ms| && ms[i].kind == Some(Str(LogicalDataRecord)) && ms[i].count == Some(v)
           && forall j :: i < j < |ms| ==> ms[j].kind != Some(Str(LogicalDataRecord))
  {
    ScanTakesLast(ms, ClassifyMeasurement, Empty);
    ScanFails(ms, ClassifyMeasurement, Empty);
    assert forall i :: 0 <= i < |ms| ==> (ClassifyMeasurement(ms[i]).Take? <==> ms[i].kind == Some(Str(LogicalDataRecord)));
  }

  /** The `ldr_count` of an extracted row is the count of the last "Logical Data Record"
      measurement, or `""` when no measurement has that type. */
  lemma ExtractedLdrCount(record: Record, ts: int)
    requires ExtractRow(record, ts).Success?
    ensures var ms := Measurements(Or(record.physicalOccurrences, []));
      var v := ExtractRow(record, ts).value.ldrCount;
      (v == Empty && forall i :: 0 <= i < |ms| ==> ms[i].kind != Some(Str(LogicalDataRecord)))
      || exists i :: 0 <= i < |ms| && ms[i].kind == Some(Str(LogicalDataRecord)) && ms[i].count == Some(v)
           && forall j :: i < j < |ms| ==> ms[j].kind != Some(Str(LogicalDataRecord))
  {
    ExtractRowParts(record, ts);
    LdrScanIsLast(Measurements(Or(record.physicalOccurrences, [])), ExtractRow(record, ts).value.ldrCount);
  }

  /** A finished CRCCRCA scan holds the number of the last variant control number with
      the exact note, or `""` when there is none. */
  lemma CrccrcaScanIsLast(cs: seq<ControlNumber>, v: Value)
    requires Scan(cs, ClassifyControlNumber, Empty) == Success(v)
    ensures (v == Empty && forall i :: 0 <= i < |cs| ==> cs[i].note != Some(Str(CrccrcaNote)))
      || exists i :: 0 <= i < |cs| && cs[i].note == Some(Str(CrccrcaNote)) && cs[i].number == Some(v)
           && forall j :: i < j < |cs| ==> cs[j].note != Some(Str(CrccrcaNote))
  {
    ScanTakesLast(cs, ClassifyControlNumber, Empty);
    ScanFails(cs, ClassifyControlNumber, Empty);
    assert forall i :: 0 <= i < |cs| ==> (ClassifyControlNumber(cs[i]).Take? <==> cs[i].note == Some(Str(CrccrcaNote)));
  }

  /** The CRCCRCA number of an extracted row is the number of the last variant control
      number with the exact note, or `""` when there is none. */
  lemma ExtractedCrccrcaNumber(record: Record, ts: int)
    requires ExtractRow(record, ts).Success?
    ensures var cs := Or(record.variantControlNumbers, []);
      var v := ExtractRow(record, ts).value.crccrcaNumber;
      (v == Empty && forall i :: 0 <= i < |cs| ==> cs[i].note != Some(Str(CrccrcaNote)))
      || exists i :: 0 <= i < |cs| && cs[i].note == Some(Str(CrccrcaNote)) && cs[i].number == Some(v)
           && forall j :: i < j < |cs| ==> cs[j].note != Some(Str(CrccrcaNote))
  {
    ExtractRowParts(record, ts);
    CrccrcaScanIsLast(Or(record.variantControlNumbers, []), ExtractRow(record, ts).value.crccrcaNumber);
  }

  /** A measurement without a `type` anywhere in the record stops the extraction. */
  lemma MissingTypeFails(record: Record, ts: int, i: nat)
    requires var ms := Measurements(Or(record.physicalOccurrences, [])); i < |ms| && ms[i].kind.None?
    ensures ExtractRow(record, ts).Failure?
  {
    var ms := Measurements(Or(record.physicalOccurrences, []));
    assert ClassifyMeasurement(ms[i]).Fault?;
    ScanFails(ms, ClassifyMeasurement, Empty);
  }

  /** The extraction method: the two loop nests, then the field expressions. */
  method ExtractRecord(record: Record, ts: int) returns (r: Result<MasterFields, ScrapeError>)
    ensures r == ExtractRow(record, ts)
  {
    var ldrCount := FindLdrCount(record.physicalOccurrences);
    if ldrCount.Failure? {
      return Failure(ldrCount.error);
    }
    var crccrcaNumber := FindCrccrcaNumber(record.variantControlNumbers);
    if crccrcaNumber.Failure? {
      return Failure(crccrcaNumber.error);
    }
    r := AssembleFields(record, ldrCount.value, crccrcaNumber.value, ts);
  }

  // ---------------------------------------------------------------------------
  // Digital objects
  // ---------------------------------------------------------------------------

  /** The `object_url_temp` row of one digital object: the `naid` returned by the
      master insert, the object's URL and id (`None` when missing), the run timestamp. */
  function UrlRow(naid: Value, obj: DigitalObject, ts: int): (row: Row<Url.Column>)
    ensures WellFormedRow(row)
    ensures row[Url.Naid] == naid && row[Url.ScrapeTimestamp] == Stamp(ts)
    ensures row[Url.DigitalObjectUrl] == Or(obj.objectUrl, Null) && row[Url.DigitalObjectId] == Or(obj.objectId, Null)
  {
    var row := map[Url.Naid := naid, Url.DigitalObjectUrl := Or(obj.objectUrl, Null),
                   Url.DigitalObjectId := Or(obj.objectId, Null), Url.ScrapeTimestamp := Stamp(ts)];
    UrlRowTotal(row);
    row
  }

  /** A row holding the four columns of `object_url_temp` is total. */
  lemma UrlRowTotal(row: Row<Url.Column>)
    requires Url.Naid in row && Url.DigitalObjectUrl in row && Url.DigitalObjectId in row && Url.ScrapeTimestamp in row
    ensures WellFormedRow(row)
  {
    forall c: Url.Column ensures c in row {
      match c
      case Naid =>
      case DigitalObjectUrl =>
      case DigitalObjectId =>
      case ScrapeTimestamp =>
    }
  }

  /** The rows the digital-object loop (lines 170-173) inserts, one per object. */
  function UrlRows(naid: Value, objects: seq<DigitalObject>, ts: int): (rows: seq<Row<Url.Column>>)
    ensures |rows| == |objects|
    ensures forall i :: 0 <= i < |rows| ==> rows[i] == UrlRow(naid, objects[i], ts)
    decreases |objects|
  {
    if objects == [] then []
    else UrlRows(naid, objects[..|objects| - 1], ts) + [UrlRow(naid, objects[|objects| - 1], ts)]
  }

  // ---------------------------------------------------------------------------
  // The run
  // ---------------------------------------------------------------------------

  /** The extraction outcome of each record, in order. */
  function Extractions(records: seq<Record>, ts: int): (outs: seq<Result<MasterFields, ScrapeError>>)
    ensures |outs| == |records|
    decreases |records|
  {
    if records == [] then []
    else Extractions(records[..|records| - 1], ts) + [ExtractRow(records[|records| - 1], ts)]
  }

  /** Entry `i` of the outcomes is the extraction of record `i`. */
  lemma {:induction false} ExtractionsAt(records: seq<Record>, ts: int, i: nat)
    requires i < |records|
    ensures Extractions(records, ts)[i] == ExtractRow(records[i], ts)
    decreases |records|
  {
    if i < |records| - 1 {
      var init := records[..|records| - 1];
      ExtractionsAt(init, ts, i);
    }
  }

  /** What one run adds to the two staging tables. */
  datatype Batch = Batch(master: seq<MasterFields>, urls: seq<Row<Url.Column>>)

  /** The rows one record stages: its master row and one URL row per digital object. */
  function RecordBatch(b: Batch, f: MasterFields, record: Record, ts: int): Batch {
    Batch(b.master + [f], b.urls + UrlRows(f.naid, Or(record.digitalObjects, []), ts))
  }

  /** The records of a run processed one after the other, as the script means to, given
      each record's extraction outcome: an extraction exception ends the run, and a
      record whose insert the database rejects (its position is in `rejected`) is
      skipped while the others stay. */
  function StagedOf(records: seq<Record>, outs: seq<Result<MasterFields, ScrapeError>>, rejected: set<nat>, ts: int)
    : Result<Batch, ScrapeError>
    requires |outs| == |records|
    decreases |records|
  {
    if records == [] then Success(Batch([], []))
    else
      var last := |records| - 1;
      var b :- StagedOf(records[..last], outs[..last], rejected, ts);
      var f :- outs[last];
      if last in rejected then Success(b) else Success(RecordBatch(b, f, records[last], ts))
  }

  /** The same loop as the script writes it: `conn.rollback()` after a rejected insert
      undoes every insert of the run so far, because nothing is committed before the
      end of the loop. */
  function StagedAsWrittenOf(records: seq<Record>, outs: seq<Result<MasterFields, ScrapeError>>, rejected: set<nat>, ts: int)
    : Result<Batch, ScrapeError>
    requires |outs| == |records|
    decreases |records|
  {
    if records == [] then Success(Batch([], []))
    else
      var last := |records| - 1;
      var b :- StagedAsWrittenOf(records[..last], outs[..last], rejected, ts);
      var f :- outs[last];
      if last in rejected then Success(Batch([], [])) else Success(RecordBatch(b, f, records[last], ts))
  }

  /** One run, as intended. */
  function Staged(records: seq<Record>, rejected: set<nat>, ts: int): Result<Batch, ScrapeError> {
    StagedOf(records, Extractions(records, ts), rejected, ts)
  }

  /** One run, as written. */
  function StagedAsWritten(records: seq<Record>, rejected: set<nat>, ts: int): Result<Batch, ScrapeError> {
    StagedAsWrittenOf(records, Extractions(records, ts), rejected, ts)
  }

  /** A record with none of the optional keys. */
  const Bare: Record := Record(None, None, None, None, None, None, None, None, None, None,
                               None, None, None, None, None, None, None, None)

  /** Two records, the second rejected by the database: as written, the first
      record's row is lost as well, while skipping only the rejected record keeps it. */
  lemma RollbackLosesEarlierRecords(ts: int)
    ensures StagedAsWritten([Bare, Bare], {1}, ts) == Success(Batch([], []))
    ensures Staged([Bare, Bare], {1}, ts).Success? && |Staged([Bare, Bare], {1}, ts).value.master| == 1
  {
    assert Scan(Measurements([]), ClassifyMeasurement, Empty) == Success(Empty);
    assert Scan([], ClassifyControlNumber, Empty) == Success(Empty);
    var f := ExtractRow(Bare, ts);
    assert f.Success?;
    var outs := [f, f];
    assert [Bare, Bare][..1] == [Bare] && outs[..1] == [f];
    assert [Bare][..0] == [] && [f][..0] == [];
    assert Extractions([Bare], ts) == [f];
    assert Extractions([Bare, Bare], ts) == outs;
    assert StagedOf([Bare], [f], {1}, ts) == Success(RecordBatch(Batch([], []), f.value, Bare, ts));
    assert StagedAsWrittenOf([Bare], [f], {1}, ts) == Success(RecordBatch(Batch([], []), f.value, Bare, ts));
  }

  /** A run ends in an exception exactly when some record's extraction raises: rejected
      inserts never end it. */
  lemma {:induction false} StagedFails(records: seq<Record>, outs: seq<Result<MasterFields, ScrapeError>>, rejected: set<nat>, ts: int)
    requires |outs| == |records|
    ensures StagedOf(records, outs, rejected, ts).Failure? <==> exists i :: 0 <= i < |outs| && outs[i].Failure?
    decreases |records|
  {
    if records != [] {
      var last := |records| - 1;
      StagedFails(records[..last], outs[..last], rejected, ts);
      assert forall i :: 0 <= i < last ==> outs[..last][i] == outs[i];
    }
  }

  /** The staged master rows are exactly the rows of the records whose inserts were not
      rejected. */
  lemma {:induction false} StagedKeepsAccepted(records: seq<Record>, outs: seq<Result<MasterFields, ScrapeError>>, rejected: set<nat>, ts: int)
    requires |outs| == |records|
    requires StagedOf(records, outs, rejected, ts).Success?
    ensures var b := StagedOf(records, outs, rejected, ts).value;
      && (forall i :: 0 <= i < |outs| && i !in rejected ==> outs[i].Success? && outs[i].value in b.master)
      && (forall f :: f in b.master ==>
            exists i :: 0 <= i < |outs| && i !in rejected && outs[i].Success? && f == outs[i].value)
    decreases |records|
  {
    if records != [] {
      var last := |records| - 1;
      StagedKeepsAccepted(records[..last], outs[..last], rejected, ts);
      StagedFails(records, outs, rejected, ts);
      assert forall i :: 0 <= i < last ==> outs[..last][i] == outs[i];
      var b0 := StagedOf(records[..last], outs[..last], rejected, ts).value;
      var b := StagedOf(records, outs, rejected, ts).value;
      if last !in rejected {
        assert b.master == b0.master + [outs[last].value];
      } else {
        assert b == b0;
      }
    }
  }

  /** The rows of the successful extractions whose position is not in `rejected`, in
      the order of the records; `from` is the position of `outs[0]` in the run. */
  function Accepted(outs: seq<Result<MasterFields, ScrapeError>>, rejected: set<nat>, from: nat): seq<MasterFields>
    decreases |outs|
  {
    if outs == [] then []
    else (if from in rejected || outs[0].Failure? then [] else [outs[0].value]) + Accepted(outs[1..], rejected, from + 1)
  }

  /** One more extraction at the end extends `Accepted` by its row, unless rejected or failed. */
  lemma {:induction false} AcceptedSnoc(outs: seq<Result<MasterFields, ScrapeError>>, x: Result<MasterFields, ScrapeError>,
                                        rejected: set<nat>, from: nat)
    ensures Accepted(outs + [x], rejected, from)
         == Accepted(outs, rejected, from) + (if from + |outs| in rejected || x.Failure? then [] else [x.value])
    decreases |outs|
  {
    if outs != [] {
      assert (outs + [x])[1..] == outs[1..] + [x];
      AcceptedSnoc(outs[1..], x, rejected, from + 1);
    }
  }

  /** The staged master rows are the accepted rows, each once and in the order of the
      records. */
  lemma {:induction false} StagedInOrder(records: seq<Record>, outs: seq<Result<MasterFields, ScrapeError>>, rejected: set<nat>, ts: int)
    requires |outs| == |records|
    requires StagedOf(records, outs, rejected, ts).Success?
    ensures StagedOf(records, outs, rejected, ts).value.master == Accepted(outs, rejected, 0)
    decreases |records|
  {
    if records != [] {
      var last := |records| - 1;
      StagedInOrder(records[..last], outs[..last], rejected, ts);
      assert outs == outs[..last] + [outs[last]];
      AcceptedSnoc(outs[..last], outs[last], rejected, 0);
    }
  }

  /** Extraction stamps every row with the run timestamp. */
  predicate Stamped(outs: seq<Result<MasterFields, ScrapeError>>, ts: int) {
    forall i :: 0 <= i < |outs| && outs[i].Success? ==> outs[i].value.scrapeTimestamp == Stamp(ts)
  }

  lemma {:induction false} ExtractionsStamped(records: seq<Record>, ts: int)
    ensures Stamped(Extractions(records, ts), ts)
    decreases |records|
  {
    if records != [] {
      var last := |records| - 1;
      ExtractionsStamped(records[..last], ts);
      ExtractionsAt(records, ts, last);
      if ExtractRow(records[last], ts).Success? {
        ExtractRowParts(records[last], ts);
      }
    }
  }

  /** Every staged row is total and carries the run timestamp, and every staged URL row
      names the `naid` of a staged master row. */
  lemma {:induction false} StagedRowsOfRun(records: seq<Record>, outs: seq<Result<MasterFields, ScrapeError>>, rejected: set<nat>, ts: int)
    requires |outs| == |records| && Stamped(outs, ts)
    requires StagedOf(records, outs, rejected, ts).Success?
    ensures var b := StagedOf(records, outs, rejected, ts).value;
      && (forall f :: f in b.master ==> f.scrapeTimestamp == Stamp(ts))
      && (forall u :: u in b.urls ==>
            WellFormedRow(u) && u[Url.ScrapeTimestamp] == Stamp(ts)
            && exists f :: f in b.master && f.naid == u[Url.Naid])
    decreases |records|
  {
    if records != [] {
      var last := |records| - 1;
      var init := outs[..last];
      assert Stamped(init, ts) by {
        assert forall i :: 0 <= i < last ==> init[i] == outs[i];
      }
      StagedRowsOfRun(records[..last], init, rejected, ts);
      var b0 := StagedOf(records[..last], init, rejected, ts).value;
      var b := StagedOf(records, outs, rejected, ts).value;
      if last !in rejected {
        var f := outs[last].value;
        var one := UrlRows(f.naid, Or(records[last].digitalObjects, []), ts);
        assert b.master == b0.master + [f];
        assert b.urls == b0.urls + one;
        forall u | u in b.urls
          ensures WellFormedRow(u) && u[Url.ScrapeTimestamp] == Stamp(ts)
          ensures exists g :: g in b.master && g.naid == u[Url.Naid]
        {
          if u in b0.urls {
            var g :| g in b0.master && g.naid == u[Url.Naid];
            assert g in b.master;
          } else {
            var k :| 0 <= k < |one| && one[k] == u;
            assert f in b.master;
          }
        }
      } else {
        assert b == b0;
      }
    }
  }

  /** One more record extends the intended run by that record's outcome. */
  lemma StagedOfStep(records: seq<Record>, outs: seq<Result<MasterFields, ScrapeError>>, rejected: set<nat>, ts: int, i: nat)
    requires |outs| == |records| && i < |records|
    ensures var before := StagedOf(records[..i], outs[..i], rejected, ts);
      StagedOf(records[..i + 1], outs[..i + 1], rejected, ts) ==
        if before.Failure? then Failure(before.error)
        else if outs[i].Failure? then Failure(outs[i].error)
        else if i in rejected then before
        else Success(RecordBatch(before.value, outs[i].value, records[i], ts))
  {
    assert records[..i + 1][..i] == records[..i];
    assert outs[..i + 1][..i] == outs[..i];
  }

  /** Once a record's extraction raises, the records after it do not matter. */
  lemma {:induction false} StagedAbort(records: seq<Record>, outs: seq<Result<MasterFields, ScrapeError>>, rejected: set<nat>, ts: int, i: nat)
    requires |outs| == |records| && i < |records|
    requires StagedOf(records[..i + 1], outs[..i + 1], rejected, ts).Failure?
    ensures StagedOf(records, outs, rejected, ts) == StagedOf(records[..i + 1], outs[..i + 1], rejected, ts)
    decreases |records|
  {
    if i + 1 < |records| {
      var last := |records| - 1;
      assert records[..last][..i + 1] == records[..i + 1];
      assert outs[..last][..i + 1] == outs[..i + 1];
      StagedAbort(records[..last], outs[..last], rejected, ts, i);
    } else {
      assert records[..i + 1] == records && outs[..i + 1] == outs;
    }
  }

  /** The staging tables `master_temp` and `object_url_temp`. */
  class StagingTables {
    var masterTemp: seq<MasterFields>
    var objectUrlTemp: seq<Row<Url.Column>>

    constructor()
      ensures masterTemp == [] && objectUrlTemp == []
    {
      masterTemp := [];
      objectUrlTemp := [];
    }

    /** clean_up.py: `DELETE FROM` both staging tables. */
    method CleanUp()
      modifies this
      ensures masterTemp == [] && objectUrlTemp == []
    {
      masterTemp := [];
      objectUrlTemp := [];
    }

    /** The scrape loop (lines 96-181) with a failed insert skipping only its own record.
        An extraction exception ends the run with nothing committed; otherwise the run's
        rows are committed at the end. */
    method Load(records: seq<Record>, rejected: set<nat>, ts: int) returns (error: Option<ScrapeError>)
      modifies this
      ensures Staged(records, rejected, ts).Failure? ==>
        error == Some(Staged(records, rejected, ts).error)
        && masterTemp == old(masterTemp) && objectUrlTemp == old(objectUrlTemp)
      ensures Staged(records, rejected, ts).Success? ==>
        error == None
        && masterTemp == old(masterTemp) + Staged(records, rejected, ts).value.master
        && objectUrlTemp == old(objectUrlTemp) + Staged(records, rejected, ts).value.urls
    {
      var pending := Batch([], []);
      ghost var outs := Extractions(records, ts);
      for i := 0 to |records|
        invariant StagedOf(records[..i], outs[..i], rejected, ts) == Success(pending)
        invariant masterTemp == old(masterTemp) && objectUrlTemp == old(objectUrlTemp)
      {
        StagedOfStep(records, outs, rejected, ts, i);
        var extracted := ExtractRecord(records[i], ts);
        ExtractionsAt(records, ts, i);
        if extracted.Failure? {
          StagedAbort(records, outs, rejected, ts, i);
          return Some(extracted.error);
        }
        var f := extracted.value;
        if i !in rejected {
          var objects := Or(records[i].digitalObjects, []);
          var urls: seq<Row<Url.Column>> := [];
          for j := 0 to |objects|
            invariant urls == UrlRows(f.naid, objects[..j], ts)
          {
            assert objects[..j + 1][..j] == objects[..j];
            urls := urls + [UrlRow(f.naid, objects[j], ts)];
          }
          assert objects[..|objects|] == objects;
          pending := Batch(pending.master + [f], pending.urls + urls);
        }
      }
      assert records[..|records|] == records && outs[..|outs|] == outs;
      masterTemp := masterTemp + pending.master;
      objectUrlTemp := objectUrlTemp + pending.urls;
      return None;
    }
  }

  /** `master_temp` as the reconciliation reads it: rows keyed by `naid`, a later row
      standing for an earlier one with the same `naid`. */
  function MasterTable(rows: seq<MasterFields>): (t: Table<Master.Column>)
    ensures Keyed(Master.Catalog, t)
    ensures t.Keys == set f | f in rows :: f.naid
    decreases |rows|
  {
    if rows == [] then map[]
    else
      var init := rows[..|rows| - 1];
      var f := rows[|rows| - 1];
      assert forall g :: g in rows <==> g in init || g == f;
      MasterTable(init)[f.naid := ToRow(f)]
  }

  /** `object_url_temp` as the reconciliation reads it: rows keyed by the digital
      object id, a later row standing for an earlier one with the same id. */
  function UrlTable(rows: seq<Row<Url.Column>>): (t: Table<Url.Column>)
    requires forall u :: u in rows ==> WellFormedRow(u)
    ensures Keyed(Url.ObjectUrl, t)
    ensures t.Keys == set u | u in rows && Url.DigitalObjectId in u :: u[Url.DigitalObjectId]
    decreases |rows|
  {
    if rows == [] then map[]
    else
      var init := rows[..|rows| - 1];
      var u := rows[|rows| - 1];
      assert forall v :: v in rows <==> v in init || v == u;
      assert u in rows && WellFormedRow(u);
      assert Url.DigitalObjectId in u;
      UrlTable(init)[u[Url.DigitalObjectId] := u]
  }

  /** Each `naid` of `master_temp` holds the row of the last staged tuple with that `naid`. */
  lemma MasterTableHoldsLast(rows: seq<MasterFields>)
    ensures forall k :: k in MasterTable(rows) ==>
      exists i :: 0 <= i < |rows| && rows[i].naid == k && MasterTable(rows)[k] == ToRow(rows[i])
        && forall j :: i < j < |rows| ==> rows[j].naid != k
  {
    forall k | k in MasterTable(rows)
      ensures exists i :: 0 <= i < |rows| && rows[i].naid == k && MasterTable(rows)[k] == ToRow(rows[i])
                 && forall j :: i < j < |rows| ==> rows[j].naid != k
    {
      var i := MasterTableAt(rows, k);
    }
  }

  /** Where the row of one `naid` of `master_temp` comes from. */
  lemma {:induction false} MasterTableAt(rows: seq<MasterFields>, k: Value) returns (i: nat)
    requires k in MasterTable(rows)
    ensures i < |rows| && rows[i].naid == k && MasterTable(rows)[k] == ToRow(rows[i])
    ensures forall j :: i < j < |rows| ==> rows[j].naid != k
    decreases |rows|
  {
    var last := |rows| - 1;
    if rows[last].naid == k {
      i := last;
    } else {
      var init := rows[..last];
      assert MasterTable(rows) == MasterTable(init)[rows[last].naid := ToRow(rows[last])];
      i := MasterTableAt(init, k);
      assert rows[i] == init[i];
      LaterNaidsDiffer(rows, init, i, k);
    }
  }

  /** The rows after position `i` carry other `naid`s when those before the last do and
      the last does. */
  lemma LaterNaidsDiffer(rows: seq<MasterFields>, init: seq<MasterFields>, i: nat, k: Value)
    requires rows != [] && init == rows[..|rows| - 1] && i < |init|
    requires rows[|init|].naid != k
    requires forall j :: i < j < |init| ==> init[j].naid != k
    ensures forall j :: i < j < |rows| ==> rows[j].naid != k
  {
    forall j | i < j < |rows|
      ensures rows[j].naid != k
    {
      if j < |init| {
        assert rows[j] == init[j];
      }
    }
  }

  /** Each id of `object_url_temp` holds the last staged row with that id. */
  lemma UrlTableHoldsLast(rows: seq<Row<Url.Column>>)
    requires forall u :: u in rows ==> WellFormedRow(u)
    ensures forall k :: k in UrlTable(rows) ==>
      exists i :: 0 <= i < |rows| && UrlTable(rows)[k] == rows[i] && rows[i][Url.DigitalObjectId] == k
        && forall j :: i < j < |rows| ==> Url.DigitalObjectId in rows[j] && rows[j][Url.DigitalObjectId] != k
  {
    forall k | k in UrlTable(rows)
      ensures exists i :: 0 <= i < |rows| && UrlTable(rows)[k] == rows[i] && rows[i][Url.DigitalObjectId] == k
                 && forall j :: i < j < |rows| ==> Url.DigitalObjectId in rows[j] && rows[j][Url.DigitalObjectId] != k
    {
      var i := UrlTableAt(rows, k);
    }
  }

  /** Where the row of one id of `object_url_temp` comes from. */
  lemma {:induction false} UrlTableAt(rows: seq<Row<Url.Column>>, k: Value) returns (i: nat)
    requires forall u :: u in rows ==> WellFormedRow(u)
    requires k in UrlTable(rows)
    ensures i < |rows| && UrlTable(rows)[k] == rows[i] && rows[i][Url.DigitalObjectId] == k
    ensures forall j :: i < j < |rows| ==> Url.DigitalObjectId in rows[j] && rows[j][Url.DigitalObjectId] != k
    decreases |rows|
  {
    var last := |rows| - 1;
    assert rows[last] in rows;
    if rows[last][Url.DigitalObjectId] == k {
      i := last;
    } else {
      var init := rows[..last];
      assert forall u :: u in init ==> u in rows;
      assert UrlTable(rows) == UrlTable(init)[rows[last][Url.DigitalObjectId] := rows[last]];
      i := UrlTableAt(init, k);
      assert rows[i] == init[i];
      LaterIdsDiffer(rows, init, i, k);
    }
  }

  /** The rows after position `i` carry other ids when those before the last do and the
      last does. */
  lemma LaterIdsDiffer(rows: seq<Row<Url.Column>>, init: seq<Row<Url.Column>>, i: nat, k: Value)
    requires rows != [] && init == rows[..|rows| - 1] && i < |init|
    requires Url.DigitalObjectId in rows[|init|] && rows[|init|][Url.DigitalObjectId] != k
    requires forall j :: i < j < |init| ==> Url.DigitalObjectId in init[j] && init[j][Url.DigitalObjectId] != k
    ensures forall j :: i < j < |rows| ==> Url.DigitalObjectId in rows[j] && rows[j][Url.DigitalObjectId] != k
  {
    forall j | i < j < |rows|
      ensures Url.DigitalObjectId in rows[j] && rows[j][Url.DigitalObjectId] != k
    {
      if j < |init| {
        assert rows[j] == init[j];
      }
    }
  }
}
