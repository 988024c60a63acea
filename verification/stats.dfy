/** Sums, extremes and means of the measured values
    (scripts/backfill_pm25.py, lines 69 and 72), in exact arithmetic. */
module Stats {

  /** `sum(xs, start=Decimal('0'))`, adding left to right. */
  function Sum(xs: seq<real>): real {
    if xs == [] then 0.0 else Sum(xs[..|xs| - 1]) + xs[|xs| - 1]
  }

  /** Smallest element: it occurs in `xs` and no element is below it. */
  function Min(xs: seq<real>): (m: real)
    requires |xs| > 0
    ensures m in xs
    ensures forall k :: 0 <= k < |xs| ==> m <= xs[k]
  {
    if |xs| == 1 then xs[0]
    else
      var m := Min(xs[..|xs| - 1]);
      assert forall k :: 0 <= k < |xs| - 1 ==> xs[..|xs| - 1][k] == xs[k];
      if xs[|xs| - 1] < m then xs[|xs| - 1] else m
  }

  /** Largest element: it occurs in `xs` and no element is above it. */
  function Max(xs: seq<real>): (m: real)
    requires |xs| > 0
    ensures m in xs
    ensures forall k :: 0 <= k < |xs| ==> xs[k] <= m
  {
    if |xs| == 1 then xs[0]
    else
      var m := Max(xs[..|xs| - 1]);
      assert forall k :: 0 <= k < |xs| - 1 ==> xs[..|xs| - 1][k] == xs[k];
      if xs[|xs| - 1] > m then xs[|xs| - 1] else m
  }

  /** A lower bound of every element bounds the sum by `|xs|` copies of it,
      and likewise for an upper bound. */
  lemma {:induction false} SumBounds(xs: seq<real>, lo: real, hi: real)
    requires forall k :: 0 <= k < |xs| ==> lo <= xs[k] <= hi
    ensures |xs| as real * lo <= Sum(xs) <= |xs| as real * hi
  {
    if xs != [] {
      var init := xs[..|xs| - 1];
      assert forall k :: 0 <= k < |init| ==> init[k] == xs[k];
      SumBounds(init, lo, hi);
      var n := |init| as real;
      assert Sum(xs) == Sum(init) + xs[|xs| - 1];
      assert |xs| as real * lo == n * lo + lo;
      assert |xs| as real * hi == n * hi + hi;
    }
  }

  lemma DivideBounds(s: real, n: real, lo: real, hi: real)
    requires n > 0.0 && n * lo <= s <= n * hi
    ensures lo <= s / n <= hi
  {
    var m := s / n;
    assert m * n == s;
  }

  /** `sum(values) / len(values)`: the mean lies between any lower and upper
      bounds of the values, in particular between their minimum and maximum. */
  function Mean(xs: seq<real>): (m: real)
    requires |xs| > 0
    ensures Min(xs) <= m <= Max(xs)
  {
    SumBounds(xs, Min(xs), Max(xs));
    DivideBounds(Sum(xs), |xs| as real, Min(xs), Max(xs));
    Sum(xs) / |xs| as real
  }

  /** The mean respects every bound that all values respect. */
  lemma MeanWithin(xs: seq<real>, lo: real, hi: real)
    requires |xs| > 0
    requires forall k :: 0 <= k < |xs| ==> lo <= xs[k] <= hi
    ensures lo <= Mean(xs) <= hi
  {
    SumBounds(xs, lo, hi);
    DivideBounds(Sum(xs), |xs| as real, lo, hi);
  }

  /** The mean of a constant sequence is that constant. */
  lemma MeanOfConstant(xs: seq<real>, c: real)
    requires |xs| > 0
    requires forall k :: 0 <= k < |xs| ==> xs[k] == c
    ensures Mean(xs) == c
  {
    MeanWithin(xs, c, c);
  }
}
