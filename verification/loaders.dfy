/** The two CSV loaders of scripts/backfill_pm25.py with the file reading
    replaced by sequences of rows: `load_existing_pm` (lines 27-50) groups
    the measured values, `load_county_fips` (lines 53-62) lists the county
    keys. Decimal parsing is a parameter: the script calls `Decimal(raw)`,
    whose string grammar is not modelled. */
module Loaders {
  import opened Wrappers
  import opened Fips

  /** One row of the PM2.5 file: its `fips` and `pm25_mean_2016_2024`
      cells, each `None` when the cell is absent. */
  datatype PmRow = PmRow(fips: Option<string>, value: Option<string>)

  /** A measured value the loader accepted, under its normalised key. */
  datatype Reading = Reading(fips: string, value: real)

  /** The two `ValueError`s the script raises while loading. */
  datatype LoadError = InvalidNumericValue(raw: string) | NoPmValues

  /** `pm_values`, `state_values` and `national_values`. */
  datatype Tables = Tables(
    pmValues: map<string, real>,
    stateValues: map<string, seq<real>>,
    nationalValues: seq<real>)

  /** What `Decimal(raw)` yields for a cell, or `None` when it raises. */
  type Parser = string -> Option<real>

  const EmptyTables := Tables(map[], map[], [])

  /** The cell is present and not `''` (line 39). */
  predicate HasValue(row: PmRow) {
    row.value.Some? && row.value.value != ""
  }

  /** A row whose value cell is filled in but does not parse. */
  predicate Invalid(row: PmRow, parse: Parser) {
    HasValue(row) && parse(row.value.value).None?
  }

  predicate AllParse(rows: seq<PmRow>, parse: Parser) {
    forall i :: 0 <= i < |rows| ==> !Invalid(rows[i], parse)
  }

  predicate NonEmptyBuckets(t: Tables) {
    forall st :: st in t.stateValues ==> |t.stateValues[st]| > 0
  }

  /** `parse_decimal` (lines 16-20): the parsed value, or the
      "Invalid numeric value" error carrying the raw text. */
  function ParseDecimal(raw: string, parse: Parser): (r: Result<real, LoadError>)
    ensures r.Success? <==> parse(raw).Some?
    ensures r.Success? ==> Some(r.value) == parse(raw)
    ensures r.Failure? ==> r.error == InvalidNumericValue(raw)
  {
    match parse(raw)
    case None => Failure(InvalidNumericValue(raw))
    case Some(v) => Success(v)
  }

  /** Lines 42-45: the value becomes the key's entry, is appended to the
      bucket of the key's state and to the national list. */
  function Record(t: Tables, fips: string, v: real): (t': Tables)
    ensures NonEmptyBuckets(t) ==> NonEmptyBuckets(t')
  {
    var st := StateOf(fips);
    var bucket := if st in t.stateValues then t.stateValues[st] else [];
    Tables(t.pmValues[fips := v], t.stateValues[st := bucket + [v]], t.nationalValues + [v])
  }

  /** One iteration of the loop of `load_existing_pm` (lines 35-45): a row
      without a value leaves every table as it was, a value that does not
      parse raises, and a parsed value is recorded under the row's key. */
  function AddRow(t: Tables, row: PmRow, parse: Parser): (r: Result<Tables, LoadError>)
    ensures !HasValue(row) ==> r == Success(t)
    ensures Invalid(row, parse) ==> r == Failure(InvalidNumericValue(row.value.value))
    ensures HasValue(row) && !Invalid(row, parse) ==>
              r == Success(Record(t, NormalizeFips(row.fips), parse(row.value.value).value))
  {
    var fips := NormalizeFips(row.fips);
    if fips == "" then Success(t)
    else if !HasValue(row) then Success(t)
    else
      match ParseDecimal(row.value.value, parse)
      case Failure(e) => Failure(e)
      case Success(v) => Success(Record(t, fips, v))
  }

  /** The loop of `load_existing_pm` over all rows, in file order; the first
      value that does not parse aborts it. Every state bucket it creates
      holds at least one value. */
  function LoadRows(rows: seq<PmRow>, parse: Parser): (r: Result<Tables, LoadError>)
    ensures r.Success? ==> NonEmptyBuckets(r.value)
  {
    if rows == [] then Success(EmptyTables)
    else
      match LoadRows(rows[..|rows| - 1], parse)
      case Failure(e) => Failure(e)
      case Success(t) => AddRow(t, rows[|rows| - 1], parse)
  }

  /** `load_existing_pm`: the loaded tables, or an error when a value does
      not parse or no value was found at all (lines 47-48). */
  function LoadExistingPm(rows: seq<PmRow>, parse: Parser): (r: Result<Tables, LoadError>)
    ensures r.Success? ==> |r.value.nationalValues| > 0 && NonEmptyBuckets(r.value)
  {
    match LoadRows(rows, parse)
    case Failure(e) => Failure(e)
    case Success(t) => if |t.nationalValues| == 0 then Failure(NoPmValues) else Success(t)
  }

  // ---------------------------------------------------------------------
  // Reference description of what the loader keeps, independent of the
  // tables it builds.

  /** The reading a row with a parsable value contributes. */
  function ReadingOf(row: PmRow, parse: Parser): (r: Reading)
    requires HasValue(row) && parse(row.value.value).Some?
    ensures Some(r.value) == parse(row.value.value)
    ensures r.fips == NormalizeFips(row.fips)
  {
    Reading(NormalizeFips(row.fips), parse(row.value.value).value)
  }

  /** The accepted values in file order: one reading per row with a value. */
  function Readings(rows: seq<PmRow>, parse: Parser): (rs: seq<Reading>)
    requires AllParse(rows, parse)
    ensures |rs| <= |rows|
  {
    if rows == [] then []
    else
      var init := rows[..|rows| - 1];
      var row := rows[|rows| - 1];
      assert forall i :: 0 <= i < |init| ==> init[i] == rows[i];
      if HasValue(row) then
        Readings(init, parse) + [ReadingOf(row, parse)]
      else Readings(init, parse)
  }

  /** Unfolds `Readings` at the last row. */
  lemma ReadingsSnoc(rows: seq<PmRow>, parse: Parser)
    requires rows != [] && AllParse(rows, parse)
    ensures AllParse(rows[..|rows| - 1], parse)
    ensures var init := Readings(rows[..|rows| - 1], parse);
            var last := rows[|rows| - 1];
            Readings(rows, parse) == if HasValue(last) then init + [ReadingOf(last, parse)] else init
  {
    var init := rows[..|rows| - 1];
    assert forall i :: 0 <= i < |init| ==> init[i] == rows[i];
  }

  function ValuesOf(rs: seq<Reading>): (vs: seq<real>)
    ensures |vs| == |rs|
    ensures forall k :: 0 <= k < |rs| ==> vs[k] == rs[k].value
  {
    seq(|rs|, k requires 0 <= k < |rs| => rs[k].value)
  }

  /** The value of the last reading for `fips`, if any. */
  function Latest(rs: seq<Reading>, fips: string): Option<real> {
    if rs == [] then None
    else if rs[|rs| - 1].fips == fips then Some(rs[|rs| - 1].value)
    else Latest(rs[..|rs| - 1], fips)
  }

  /** The readings whose key lies in state `st`, in order. */
  function InState(rs: seq<Reading>, st: string): (ss: seq<Reading>)
    ensures forall k :: 0 <= k < |ss| ==> StateOf(ss[k].fips) == st
  {
    if rs == [] then []
    else InState(rs[..|rs| - 1], st) + (if StateOf(rs[|rs| - 1].fips) == st then [rs[|rs| - 1]] else [])
  }

  /** The tables hold exactly the readings `rs`: the national list is every
      value in order, a key's entry is its latest value, and a state's bucket
      is the values of that state's readings in order. */
  ghost predicate Tabulates(t: Tables, rs: seq<Reading>) {
    && t.nationalValues == ValuesOf(rs)
    && (forall k :: k in t.pmValues <==> Latest(rs, k).Some?)
    && (forall k :: k in t.pmValues ==> Some(t.pmValues[k]) == Latest(rs, k))
    && (forall st :: st in t.stateValues <==> |InState(rs, st)| > 0)
    && (forall st :: st in t.stateValues ==> t.stateValues[st] == ValuesOf(InState(rs, st)))
  }

  // ---------------------------------------------------------------------
  // Lemmas

  lemma ValuesOfAppend(rs: seq<Reading>, r: Reading)
    ensures ValuesOf(rs + [r]) == ValuesOf(rs) + [r.value]
  {
  }

  lemma LatestAppend(rs: seq<Reading>, r: Reading, fips: string)
    ensures Latest(rs + [r], fips) == if r.fips == fips then Some(r.value) else Latest(rs, fips)
  {
    assert (rs + [r])[..|rs|] == rs;
  }

  lemma InStateAppend(rs: seq<Reading>, r: Reading, st: string)
    ensures InState(rs + [r], st) == InState(rs, st) + (if StateOf(r.fips) == st then [r] else [])
  {
    assert (rs + [r])[..|rs|] == rs;
  }

  /** Recording a reading keeps the tables in step with the readings. */
  lemma RecordTabulates(t: Tables, rs: seq<Reading>, r: Reading)
    requires Tabulates(t, rs)
    ensures Tabulates(Record(t, r.fips, r.value), rs + [r])
  {
    var rs' := rs + [r];
    var t' := Record(t, r.fips, r.value);
    ValuesOfAppend(rs, r);
    forall k
      ensures k in t'.pmValues <==> Latest(rs', k).Some?
      ensures k in t'.pmValues ==> Some(t'.pmValues[k]) == Latest(rs', k)
    {
      LatestAppend(rs, r, k);
    }
    forall st
      ensures st in t'.stateValues <==> |InState(rs', st)| > 0
      ensures st in t'.stateValues ==> t'.stateValues[st] == ValuesOf(InState(rs', st))
    {
      InStateAppend(rs, r, st);
      if st == StateOf(r.fips) {
        ValuesOfAppend(InState(rs, st), r);
      }
    }
  }

  /** Whenever every value parses, the loop succeeds and its tables hold
      exactly the readings. */
  lemma {:induction false} LoadRowsTabulates(rows: seq<PmRow>, parse: Parser)
    requires AllParse(rows, parse)
    ensures LoadRows(rows, parse).Success?
    ensures Tabulates(LoadRows(rows, parse).value, Readings(rows, parse))
  {
    if rows != [] {
      var init := rows[..|rows| - 1];
      var row := rows[|rows| - 1];
      assert forall i :: 0 <= i < |init| ==> init[i] == rows[i];
      LoadRowsTabulates(init, parse);
      var t := LoadRows(init, parse).value;
      assert !Invalid(row, parse);
      if HasValue(row) {
        RecordTabulates(t, Readings(init, parse), ReadingOf(row, parse));
      }
    }
  }

  /** The index of the first row whose value does not parse. */
  ghost predicate FirstInvalid(rows: seq<PmRow>, parse: Parser, i: int) {
    && 0 <= i < |rows|
    && Invalid(rows[i], parse)
    && forall j :: 0 <= j < i ==> !Invalid(rows[j], parse)
  }

  /** The loop fails exactly when some value does not parse, and then with
      the error for the first such value. */
  lemma {:induction false} LoadRowsFailure(rows: seq<PmRow>, parse: Parser)
    ensures LoadRows(rows, parse).Success? <==> AllParse(rows, parse)
    ensures LoadRows(rows, parse).Failure? ==>
              exists i :: FirstInvalid(rows, parse, i)
                && LoadRows(rows, parse).error == InvalidNumericValue(rows[i].value.value)
  {
    if rows != [] {
      var init := rows[..|rows| - 1];
      var row := rows[|rows| - 1];
      assert forall i :: 0 <= i < |init| ==> init[i] == rows[i];
      LoadRowsFailure(init, parse);
      if LoadRows(init, parse).Failure? {
        var i :| FirstInvalid(init, parse, i)
                 && LoadRows(init, parse).error == InvalidNumericValue(init[i].value.value);
        assert FirstInvalid(rows, parse, i);
      } else if Invalid(row, parse) {
        assert FirstInvalid(rows, parse, |rows| - 1);
      } else {
        assert forall i :: 0 <= i < |rows| ==> !Invalid(rows[i], parse);
      }
    }
  }

  /** `load_existing_pm` succeeds exactly when every value parses and at
      least one row has a value; a parse failure is reported before the
      emptiness check; on success the tables hold exactly the readings. */
  lemma LoadExistingPmOutcome(rows: seq<PmRow>, parse: Parser)
    ensures LoadExistingPm(rows, parse).Success? <==>
              AllParse(rows, parse) && |Readings(rows, parse)| > 0
    ensures !AllParse(rows, parse) ==>
              exists i :: FirstInvalid(rows, parse, i)
                && LoadExistingPm(rows, parse) == Failure(InvalidNumericValue(rows[i].value.value))
    ensures AllParse(rows, parse) && |Readings(rows, parse)| == 0 ==>
              LoadExistingPm(rows, parse) == Failure(NoPmValues)
    ensures LoadExistingPm(rows, parse).Success? ==>
              Tabulates(LoadExistingPm(rows, parse).value, Readings(rows, parse))
  {
    LoadRowsFailure(rows, parse);
    if AllParse(rows, parse) {
      LoadRowsTabulates(rows, parse);
    }
  }

  /** `Latest` finds the last occurrence of a key: the lookup keeps the
      value of the last row for a repeated key. */
  lemma {:induction false} LatestIsLastOccurrence(rs: seq<Reading>, i: nat)
    requires i < |rs|
    requires forall j :: i < j < |rs| ==> rs[j].fips != rs[i].fips
    ensures Latest(rs, rs[i].fips) == Some(rs[i].value)
  {
    if i < |rs| - 1 {
      var init := rs[..|rs| - 1];
      assert init[i] == rs[i];
      LatestIsLastOccurrence(init, i);
    }
  }

  /** A key has a latest value exactly when some reading carries it. */
  lemma {:induction false} LatestDefined(rs: seq<Reading>, fips: string)
    ensures Latest(rs, fips).Some? <==> exists i :: 0 <= i < |rs| && rs[i].fips == fips
  {
    if rs != [] {
      var init := rs[..|rs| - 1];
      LatestDefined(init, fips);
      if rs[|rs| - 1].fips != fips {
        if exists i :: 0 <= i < |rs| && rs[i].fips == fips {
          var i :| 0 <= i < |rs| && rs[i].fips == fips;
          assert init[i] == rs[i];
        }
      }
    }
  }

  /** Each reading is counted, every time it occurs, in the bucket of its
      own state and in no other. */
  lemma {:induction false} InStateCounts(rs: seq<Reading>, st: string, r: Reading)
    ensures multiset(InState(rs, st))[r] == if StateOf(r.fips) == st then multiset(rs)[r] else 0
  {
    if rs != [] {
      var init := rs[..|rs| - 1];
      assert rs == init + [rs[|rs| - 1]];
      InStateCounts(init, st, r);
    }
  }

  /** Every value in a state's bucket is one of the national values. */
  lemma {:induction false} InStateValuesAreValues(rs: seq<Reading>, st: string, k: nat)
    requires k < |InState(rs, st)|
    ensures InState(rs, st)[k].value in ValuesOf(rs)
  {
    var init := rs[..|rs| - 1];
    var last := rs[|rs| - 1];
    if k < |InState(init, st)| {
      InStateValuesAreValues(init, st, k);
      var j :| 0 <= j < |init| && ValuesOf(init)[j] == InState(rs, st)[k].value;
      assert ValuesOf(rs)[j] == ValuesOf(init)[j];
    } else {
      assert InState(rs, st)[k] == last;
      assert ValuesOf(rs)[|rs| - 1] == last.value;
    }
  }

  /** `load_county_fips`: the normalised key of every row, in order; the
      `if not fips` guard never drops a row because keys are never empty. */
  function LoadCountyFips(cells: seq<Option<string>>): (keys: seq<string>)
    ensures |keys| == |cells|
    ensures forall i :: 0 <= i < |cells| ==> keys[i] == NormalizeFips(cells[i])
  {
    if cells == [] then []
    else
      var init := LoadCountyFips(cells[..|cells| - 1]);
      var fips := NormalizeFips(cells[|cells| - 1]);
      if fips == "" then init else init + [fips]
  }
}
