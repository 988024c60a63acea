/** `main` of scripts/backfill_pm25.py (lines 65-90) without the file
    writing: the national and state means, and one output row per county
    key with its measured value or an imputed mean. */
module Backfill {
  import opened Wrappers
  import opened Fips
  import opened LexOrder
  import opened Stats
  import opened FixedPoint
  import opened Loaders

  /** One row written to the output file. */
  datatype OutRow = OutRow(fips: string, pm25: string)

  /** The placeholder key of a blank county cell, never written (line 76). */
  const BlankCounty := "00000"

  /** The key that always receives the national mean (line 78). */
  const NationalCode := "00059"

  function Keys(out: seq<OutRow>): (ks: seq<string>)
    ensures |ks| == |out|
    ensures forall i :: 0 <= i < |out| ==> ks[i] == out[i].fips
  {
    seq(|out|, i requires 0 <= i < |out| => out[i].fips)
  }

  /** `xs` without the element `x`, in the same order. */
  function Without(xs: seq<string>, x: string): (ys: seq<string>)
    ensures forall y :: y in ys <==> y in xs && y != x
    ensures StrictlyAscending(xs) ==> StrictlyAscending(ys)
  {
    if xs == [] then []
    else
      var init := xs[..|xs| - 1];
      var last := xs[|xs| - 1];
      assert xs == init + [last];
      var ys := Without(init, x);
      if last == x then ys
      else
        assert StrictlyAscending(xs) ==> forall y :: y in ys ==> Below(y, last);
        ys + [last]
  }

  /** `state_means` (lines 70-72): one mean per state bucket, lying between
      the bucket's smallest and largest value. */
  function StateMeans(sv: map<string, seq<real>>): (m: map<string, real>)
    requires forall st :: st in sv ==> |sv[st]| > 0
    ensures m.Keys == sv.Keys
    ensures forall st :: st in m ==> Min(sv[st]) <= m[st] <= Max(sv[st])
  {
    map st | st in sv :: Mean(sv[st])
  }

  /** The value chosen for one county key (lines 78-84). */
  function Choose(fips: string, pm: map<string, real>, means: map<string, real>, national: real): (r: real)
    ensures r == national || r in pm.Values || r in means.Values
  {
    if fips == NationalCode then national
    else if fips in pm then pm[fips]
    else
      var st := StateOf(fips);
      if st in means then means[st] else national
  }

  /** The output loop (lines 75-85): one row per key of `allFips` except the
      blank one, in the same order, each with its chosen value formatted. */
  function EmitRows(allFips: seq<string>, pm: map<string, real>, means: map<string, real>, national: real)
    : (out: seq<OutRow>)
    ensures Keys(out) == Without(allFips, BlankCounty)
    ensures forall i :: 0 <= i < |out| ==> out[i].pm25 == Format(Choose(out[i].fips, pm, means, national))
  {
    if allFips == [] then []
    else
      var init := allFips[..|allFips| - 1];
      var fips := allFips[|allFips| - 1];
      var out := EmitRows(init, pm, means, national);
      if fips == BlankCounty then out
      else
        var out' := out + [OutRow(fips, Format(Choose(fips, pm, means, national)))];
        assert out'[..|out|] == out;
        out'
  }

  /** The script without its file I/O: the rows it writes, or the error it
      raises. */
  function Run(pmRows: seq<PmRow>, placeCells: seq<Option<string>>, parse: Parser)
    : (r: Result<seq<OutRow>, LoadError>)
    ensures r.Success? <==> LoadExistingPm(pmRows, parse).Success?
    ensures r.Failure? ==> r.error == LoadExistingPm(pmRows, parse).error
    ensures r.Success? ==> StrictlyAscending(Keys(r.value)) && BlankCounty !in Keys(r.value)
  {
    match LoadExistingPm(pmRows, parse)
    case Failure(e) => Failure(e)
    case Success(t) =>
      var allFips := SortedSet(LoadCountyFips(placeCells));
      var national := Mean(t.nationalValues);
      var means := StateMeans(t.stateValues);
      Success(EmitRows(allFips, t.pmValues, means, national))
  }

  // ---------------------------------------------------------------------
  // Reference description of the output value of a key, in terms of the
  // readings rather than the tables.

  /** The value a county key should receive, by priority: the national code
      gets the national mean; a measured key its latest measured value;
      otherwise the mean of its state's readings; a key of a state without
      readings the national mean. */
  function Imputed(rs: seq<Reading>, fips: string): real
    requires |rs| > 0
  {
    if fips == NationalCode then Mean(ValuesOf(rs))
    else
      match Latest(rs, fips)
      case Some(v) => v
      case None =>
        var bucket := InState(rs, StateOf(fips));
        if |bucket| > 0 then Mean(ValuesOf(bucket)) else Mean(ValuesOf(rs))
  }

  // ---------------------------------------------------------------------
  // Lemmas

  lemma {:induction false} LatestIsAValue(rs: seq<Reading>, fips: string)
    requires Latest(rs, fips).Some?
    ensures Latest(rs, fips).value in ValuesOf(rs)
  {
    var init := rs[..|rs| - 1];
    if rs[|rs| - 1].fips == fips {
      assert ValuesOf(rs)[|rs| - 1] == rs[|rs| - 1].value;
    } else {
      LatestIsAValue(init, fips);
      var j :| 0 <= j < |init| && ValuesOf(init)[j] == Latest(rs, fips).value;
      assert ValuesOf(rs)[j] == ValuesOf(init)[j];
    }
  }

  /** Every value written lies within the range of all measured values, and
      a state imputation within the range of that state's values: imputing
      never invents a value outside what was measured. */
  lemma ImputedBounds(rs: seq<Reading>, fips: string)
    requires |rs| > 0
    ensures Min(ValuesOf(rs)) <= Imputed(rs, fips) <= Max(ValuesOf(rs))
    ensures fips != NationalCode && Latest(rs, fips).None? && |InState(rs, StateOf(fips))| > 0 ==>
              Min(ValuesOf(InState(rs, StateOf(fips)))) <= Imputed(rs, fips)
                <= Max(ValuesOf(InState(rs, StateOf(fips))))
  {
    var all := ValuesOf(rs);
    if fips != NationalCode {
      if Latest(rs, fips).Some? {
        LatestIsAValue(rs, fips);
      } else {
        var bucket := InState(rs, StateOf(fips));
        if |bucket| > 0 {
          forall k | 0 <= k < |bucket|
            ensures Min(all) <= ValuesOf(bucket)[k] <= Max(all)
          {
            InStateValuesAreValues(rs, StateOf(fips), k);
          }
          MeanWithin(ValuesOf(bucket), Min(all), Max(all));
        }
      }
    }
  }

  /** Given tables that hold exactly the readings, the script's choice is
      the reference value. */
  lemma ChooseIsImputed(t: Tables, rs: seq<Reading>, fips: string)
    requires Tabulates(t, rs) && |rs| > 0 && NonEmptyBuckets(t)
    ensures |t.nationalValues| > 0
    ensures Choose(fips, t.pmValues, StateMeans(t.stateValues), Mean(t.nationalValues)) == Imputed(rs, fips)
  {
  }

  /** `main` fails exactly when loading fails: on the first value that does
      not parse, or when no row has a value. */
  lemma RunOutcome(pmRows: seq<PmRow>, placeCells: seq<Option<string>>, parse: Parser)
    ensures Run(pmRows, placeCells, parse).Success? <==>
              AllParse(pmRows, parse) && |Readings(pmRows, parse)| > 0
    ensures !AllParse(pmRows, parse) ==>
              exists i :: FirstInvalid(pmRows, parse, i)
                && Run(pmRows, placeCells, parse) == Failure(InvalidNumericValue(pmRows[i].value.value))
    ensures AllParse(pmRows, parse) && |Readings(pmRows, parse)| == 0 ==>
              Run(pmRows, placeCells, parse) == Failure(NoPmValues)
  {
    LoadExistingPmOutcome(pmRows, parse);
  }

  /** The rows written: the distinct normalised county keys of the places
      file, blank key excluded, in ascending order (keys that occur only in
      the PM2.5 file are not written), each with its reference value rounded
      half-up to thousandths. */
  lemma RunRows(pmRows: seq<PmRow>, placeCells: seq<Option<string>>, parse: Parser)
    requires AllParse(pmRows, parse) && |Readings(pmRows, parse)| > 0
    ensures Run(pmRows, placeCells, parse).Success?
    ensures var out := Run(pmRows, placeCells, parse).value;
            && StrictlyAscending(Keys(out))
            && (forall f :: f in Keys(out) <==>
                  f != BlankCounty && exists i :: 0 <= i < |placeCells| && NormalizeFips(placeCells[i]) == f)
            && forall i :: 0 <= i < |out| ==>
                 out[i].pm25 == Format(Imputed(Readings(pmRows, parse), out[i].fips))
  {
    LoadExistingPmOutcome(pmRows, parse);
    var t := LoadExistingPm(pmRows, parse).value;
    var rs := Readings(pmRows, parse);
    var keys := LoadCountyFips(placeCells);
    var out := Run(pmRows, placeCells, parse).value;
    forall f
      ensures f in keys <==> exists i :: 0 <= i < |placeCells| && NormalizeFips(placeCells[i]) == f
    {
      if f in keys {
        var i :| 0 <= i < |keys| && keys[i] == f;
        assert NormalizeFips(placeCells[i]) == f;
      }
    }
    forall i | 0 <= i < |out|
      ensures out[i].pm25 == Format(Imputed(rs, out[i].fips))
    {
      ChooseIsImputed(t, rs, out[i].fips);
    }
  }

  /** Each written value reads back as a number within 0.0005 of the
      reference value. */
  lemma RunValuesClose(pmRows: seq<PmRow>, placeCells: seq<Option<string>>, parse: Parser, i: nat)
    requires AllParse(pmRows, parse) && |Readings(pmRows, parse)| > 0
    requires Run(pmRows, placeCells, parse).Success?
    requires i < |Run(pmRows, placeCells, parse).value|
    ensures var row := Run(pmRows, placeCells, parse).value[i];
            var v := Imputed(Readings(pmRows, parse), row.fips);
            ParseFixed(row.pm25).Some? && -0.0005 <= ParseFixed(row.pm25).value - v <= 0.0005
  {
    RunRows(pmRows, placeCells, parse);
    var row := Run(pmRows, placeCells, parse).value[i];
    FormatThenParse(Imputed(Readings(pmRows, parse), row.fips));
  }

  /** The written rows as the PM2.5 file reads them back on the next run
      (the output overwrites the input, line 11). */
  function AsPmRows(out: seq<OutRow>): (rows: seq<PmRow>)
    ensures |rows| == |out|
    ensures forall i :: 0 <= i < |out| ==> rows[i] == PmRow(Some(out[i].fips), Some(out[i].pm25))
  {
    seq(|out|, i requires 0 <= i < |out| => PmRow(Some(out[i].fips), Some(out[i].pm25)))
  }

  /** When every row has a value, there is one reading per row. */
  lemma {:induction false} ReadingsOfValuedRows(rows: seq<PmRow>, parse: Parser)
    requires AllParse(rows, parse)
    requires forall i :: 0 <= i < |rows| ==> HasValue(rows[i])
    ensures |Readings(rows, parse)| == |rows|
    ensures forall i :: 0 <= i < |rows| ==>
              Readings(rows, parse)[i] == ReadingOf(rows[i], parse)
  {
    if rows != [] {
      var init := rows[..|rows| - 1];
      var last := rows[|rows| - 1];
      ReadingsSnoc(rows, parse);
      ReadingsOfValuedRows(init, parse);
      var rs := Readings(init, parse);
      forall i | 0 <= i < |rows|
        ensures Readings(rows, parse)[i] == ReadingOf(rows[i], parse)
      {
        if i < |init| {
          assert rows[i] == init[i];
        }
      }
    }
  }

  /** The script's own output read back: one reading per written row, with
      the written key and the quantized reference value. */
  lemma OwnOutputReadings(pmRows: seq<PmRow>, placeCells: seq<Option<string>>,
                          parse: Parser, reparse: Parser)
    requires AllParse(pmRows, parse) && |Readings(pmRows, parse)| > 0
    requires forall s :: ParseFixed(s).Some? ==> reparse(s) == ParseFixed(s)
    ensures Run(pmRows, placeCells, parse).Success?
    ensures var out := Run(pmRows, placeCells, parse).value;
            var rows := AsPmRows(out);
            && AllParse(rows, reparse)
            && |Readings(rows, reparse)| == |out|
            && forall i :: 0 <= i < |out| ==>
                 Readings(rows, reparse)[i]
                   == Reading(out[i].fips, Quantize(Imputed(Readings(pmRows, parse), out[i].fips)))
  {
    var rs := Readings(pmRows, parse);
    RunRows(pmRows, placeCells, parse);
    var out := Run(pmRows, placeCells, parse).value;
    var rows := AsPmRows(out);
    forall i | 0 <= i < |out|
      ensures NormalizeFips(Some(out[i].fips)) == out[i].fips
    {
      assert out[i].fips in Keys(out);
      var j :| 0 <= j < |placeCells| && NormalizeFips(placeCells[j]) == out[i].fips;
      NormalizeIdempotent(placeCells[j]);
    }
    forall i | 0 <= i < |out|
      ensures HasValue(rows[i])
      ensures reparse(out[i].pm25) == Some(Quantize(Imputed(rs, out[i].fips)))
    {
      FormatThenParse(Imputed(rs, out[i].fips));
    }
    ReadingsOfValuedRows(rows, reparse);
  }

  lemma NonNegativeReadings(rs: seq<Reading>, fips: string)
    requires |rs| > 0
    requires forall k :: 0 <= k < |rs| ==> rs[k].value >= 0.0
    ensures Imputed(rs, fips) >= 0.0
  {
    ImputedBounds(rs, fips);
    var m := Min(ValuesOf(rs));
    var k :| 0 <= k < |rs| && ValuesOf(rs)[k] == m;
  }

  /** One county row of the second run: its key is measured there, with the
      quantized value of the first run, which formats the same. */
  lemma RereadValue(rs: seq<Reading>, rs2: seq<Reading>, out: seq<OutRow>, out2: seq<OutRow>, i: nat)
    requires |rs| > 0 && forall k :: 0 <= k < |rs| ==> rs[k].value >= 0.0
    requires StrictlyAscending(Keys(out)) && Keys(out2) == Keys(out)
    requires |rs2| == |out| && i < |out| && out[i].fips != NationalCode
    requires forall k :: 0 <= k < |out| ==> rs2[k] == Reading(out[k].fips, Quantize(Imputed(rs, out[k].fips)))
    requires out[i].pm25 == Format(Imputed(rs, out[i].fips))
    requires out2[i].pm25 == Format(Imputed(rs2, out2[i].fips))
    ensures out2[i].pm25 == out[i].pm25
  {
    var f := out[i].fips;
    assert Keys(out2)[i] == Keys(out)[i];
    forall j | i < j < |rs2|
      ensures rs2[j].fips != f
    {
      AscendingDistinct(Keys(out), i, j);
    }
    LatestIsLastOccurrence(rs2, i);
    NonNegativeReadings(rs, f);
    FormatQuantized(Imputed(rs, f));
  }

  /** Running the script again on its own output, with a parser that reads
      plain fixed-point numerals as `Decimal` does, writes the same keys and,
      for every key but the national code, the same value strings: the
      backfill is stable under re-runs. The second run fails only when the
      first wrote nothing. Measured values must be non-negative, as PM2.5
      concentrations are. */
  lemma RerunKeepsCountyValues(pmRows: seq<PmRow>, placeCells: seq<Option<string>>,
                               parse: Parser, reparse: Parser)
    requires AllParse(pmRows, parse) && |Readings(pmRows, parse)| > 0
    requires forall k :: 0 <= k < |Readings(pmRows, parse)| ==> Readings(pmRows, parse)[k].value >= 0.0
    requires forall s :: ParseFixed(s).Some? ==> reparse(s) == ParseFixed(s)
    ensures Run(pmRows, placeCells, parse).Success?
    ensures var out := Run(pmRows, placeCells, parse).value;
            var again := Run(AsPmRows(out), placeCells, reparse);
            && (again.Success? <==> |out| > 0)
            && (again.Success? ==>
                  && Keys(again.value) == Keys(out)
                  && forall i :: 0 <= i < |out| && out[i].fips != NationalCode ==>
                       again.value[i].pm25 == out[i].pm25)
  {
    var rs := Readings(pmRows, parse);
    RunRows(pmRows, placeCells, parse);
    OwnOutputReadings(pmRows, placeCells, parse, reparse);
    var out := Run(pmRows, placeCells, parse).value;
    var rows := AsPmRows(out);
    var rs2 := Readings(rows, reparse);
    RunOutcome(rows, placeCells, reparse);
    if |out| > 0 {
      RunRows(rows, placeCells, reparse);
      var out2 := Run(rows, placeCells, reparse).value;
      AscendingUnique(Keys(out2), Keys(out));
      forall i | 0 <= i < |out| && out[i].fips != NationalCode
        ensures out2[i].pm25 == out[i].pm25
      {
        RereadValue(rs, rs2, out, out2, i);
      }
    }
  }
}
