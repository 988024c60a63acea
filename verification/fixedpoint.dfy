/** Fixed-point output (scripts/backfill_pm25.py, lines 13 and 23-24):
    `value.quantize(Decimal('0.001'), rounding=ROUND_HALF_UP)` printed with
    the `f` format, and the plain fixed-point strings that `Decimal(...)`
    (line 18) reads back. Decimal values are modelled as exact reals. */
module FixedPoint {
  import opened Wrappers
  import Fips

  function Abs(n: int): nat {
    if n < 0 then -n else n
  }

  /** The quantized value counted in thousandths, rounded half away from
      zero (Decimal's ROUND_HALF_UP). The two pairs of bounds determine the
      result uniquely: a tie `.5` goes up for positives and down for
      negatives, and the result carries the sign of `x` or is zero. */
  function RoundHalfUp(x: real): (q: int)
    ensures x >= 0.0 ==> q >= 0 && (q as real) - 0.5 <= x * 1000.0 < (q as real) + 0.5
    ensures x < 0.0 ==> q <= 0 && (q as real) - 0.5 < x * 1000.0 <= (q as real) + 0.5
  {
    if x >= 0.0 then (x * 1000.0 + 0.5).Floor else -((-x) * 1000.0 + 0.5).Floor
  }

  /** The quantized value itself: within half a thousandth of `x`. */
  function Quantize(x: real): (r: real)
    ensures -0.0005 <= r - x <= 0.0005
  {
    RoundHalfUp(x) as real / 1000.0
  }

  /** A whole number of thousandths rounds to itself. */
  lemma RoundHalfUpExact(n: int)
    ensures RoundHalfUp(n as real / 1000.0) == n
  {
    var x := n as real / 1000.0;
    assert x * 1000.0 == n as real;
    var q := RoundHalfUp(x);
    if x >= 0.0 {
      assert (q as real) - 0.5 <= n as real < (q as real) + 0.5;
    } else {
      assert (q as real) - 0.5 < n as real <= (q as real) + 0.5;
    }
  }

  /** Re-rounding an already quantized value leaves it unchanged. */
  lemma QuantizeIdempotent(x: real)
    ensures Quantize(Quantize(x)) == Quantize(x)
  {
    RoundHalfUpExact(RoundHalfUp(x));
  }

  predicate IsDigit(c: char) {
    '0' <= c <= '9'
  }

  predicate AllDigits(s: string) {
    forall k :: 0 <= k < |s| ==> IsDigit(s[k])
  }

  function DigitChar(d: nat): (c: char)
    requires d < 10
    ensures IsDigit(c)
  {
    ('0' as int + d) as char
  }

  /** The number a run of decimal digits denotes. */
  function DigitsValue(s: string): nat
    requires AllDigits(s)
  {
    if s == [] then 0
    else DigitsValue(s[..|s| - 1]) * 10 + (s[|s| - 1] as int - '0' as int)
  }

  /** Decimal digits of `n` without leading zeros; they denote `n` again. */
  function NatToDigits(n: nat): (s: string)
    ensures |s| > 0 && AllDigits(s)
    ensures s[0] == '0' ==> s == "0"
    ensures DigitsValue(s) == n
  {
    if n < 10 then [DigitChar(n)]
    else
      var s := NatToDigits(n / 10) + [DigitChar(n % 10)];
      assert s[..|s| - 1] == NatToDigits(n / 10);
      s
  }

  /** Exactly three digits for a count of thousandths below one. */
  function Pad3(m: nat): (s: string)
    requires m < 1000
    ensures |s| == 3 && AllDigits(s)
    ensures DigitsValue(s) == m
  {
    var s := [DigitChar(m / 100), DigitChar(m / 10 % 10), DigitChar(m % 10)];
    assert s[..2][..1] == s[..1] && s[..1][..0] == [];
    assert DigitsValue(s[..1]) == m / 100;
    assert DigitsValue(s[..2]) == m / 100 * 10 + m / 10 % 10;
    s
  }

  /** A count of thousandths written as integer digits, a point and three
      digits (`ThousandthsShape` says what the digits denote). */
  function Thousandths(a: nat): (s: string)
    ensures |s| >= 5 && s[|s| - 4] == '.' && AllDigits(s[|s| - 3..])
    ensures IsDigit(s[0])
  {
    NatToDigits(a / 1000) + "." + Pad3(a % 1000)
  }

  /** The integer digits of `Thousandths(a)` have no leading zero, and with
      the three fraction digits they denote `a`. */
  lemma ThousandthsShape(a: nat)
    ensures var s := Thousandths(a);
            && AllDigits(s[..|s| - 4])
            && (s[0] == '0' ==> |s| == 5)
            && DigitsValue(s[..|s| - 4]) * 1000 + DigitsValue(s[|s| - 3..]) == a
  {
    var d := NatToDigits(a / 1000);
    var p := Pad3(a % 1000);
    var s := d + "." + p;
    assert s[..|s| - 4] == d && s[|s| - 3..] == p;
  }

  /** A count of thousandths printed with a leading `-` when `neg`. */
  function Signed(neg: bool, a: nat): (s: string)
    ensures |s| >= 5 && s[|s| - 4] == '.' && AllDigits(s[|s| - 3..])
    ensures s[0] == '-' <==> neg
  {
    var t := Thousandths(a);
    if neg then "-" + t else t
  }

  /** `format_decimal`: the value rounded half-up to thousandths, written
      with a `-` exactly when `x` is negative (Decimal keeps the operand's
      sign through quantize); `FormatShape` describes the digits. */
  function Format(x: real): (s: string)
    ensures |s| >= 5 && s[|s| - 4] == '.' && AllDigits(s[|s| - 3..])
    ensures s[0] == '-' <==> x < 0.0
  {
    Signed(x < 0.0, Abs(RoundHalfUp(x)))
  }

  /** The text `format_decimal` writes, in full: an optional `-` (exactly for
      a negative value), integer digits without a leading zero, a point and
      three digits, which together denote the rounded magnitude. */
  lemma FormatShape(x: real)
    ensures var s := Format(x);
            var o := if x < 0.0 then 1 else 0;
            && |s| >= o + 5 && s[|s| - 4] == '.'
            && (s[0] == '-' <==> x < 0.0)
            && AllDigits(s[o..|s| - 4]) && AllDigits(s[|s| - 3..])
            && (s[o] == '0' ==> |s| == o + 5)
            && DigitsValue(s[o..|s| - 4]) * 1000 + DigitsValue(s[|s| - 3..]) == Abs(RoundHalfUp(x))
  {
    var a := Abs(RoundHalfUp(x));
    var t := Thousandths(a);
    ThousandthsShape(a);
    if x < 0.0 {
      var s := "-" + t;
      assert Format(x) == s;
      assert s[1..|s| - 4] == t[..|t| - 4] && s[|s| - 3..] == t[|t| - 3..];
    } else {
      assert Format(x) == t;
      assert t[0..|t| - 4] == t[..|t| - 4];
    }
  }

  /** `v` divided by ten `k` times: the weight of a fraction of `k` digits. */
  function Shift(v: real, k: nat): (r: real)
    ensures v >= 0.0 ==> r >= 0.0
  {
    if k == 0 then v else Shift(v, k - 1) / 10.0
  }

  /** Position of the first `c` in `s`, or `|s|` when there is none. */
  function IndexOf(s: string, c: char): (i: nat)
    ensures i <= |s|
    ensures forall k :: 0 <= k < i ==> s[k] != c
    ensures i < |s| ==> s[i] == c
  {
    if s == [] || s[0] == c then 0 else 1 + IndexOf(s[1..], c)
  }

  /** An unsigned decimal numeral: `digits`, `digits.`, `.digits` or
      `digits.digits`. */
  function ParseUnsigned(s: string): Option<real> {
    var i := IndexOf(s, '.');
    var whole := s[..i];
    var frac := if i < |s| then s[i + 1..] else [];
    if AllDigits(whole) && AllDigits(frac) && |whole| + |frac| > 0 then
      Some(DigitsValue(whole) as real + Shift(DigitsValue(frac) as real, |frac|))
    else None
  }

  /** `Decimal(s)` on plain fixed-point strings: an optional sign followed
      by an unsigned numeral. Any other string is refused here (Decimal's
      exponents, whitespace, underscores and special values are not
      modelled). */
  function ParseFixed(s: string): Option<real> {
    if |s| > 0 && Fips.IsSign(s[0]) then
      match ParseUnsigned(s[1..])
      case None => None
      case Some(v) => Some(if s[0] == '-' then -v else v)
    else ParseUnsigned(s)
  }

  lemma IndexOfAfterDigits(d: string, rest: string)
    requires AllDigits(d)
    ensures IndexOf(d + "." + rest, '.') == |d|
  {
    var s := d + "." + rest;
    assert s[|d|] == '.';
    assert forall k :: 0 <= k < |d| ==> s[k] == d[k];
  }

  /** The thousandths read back as an unsigned numeral give `a / 1000`. */
  lemma ParseThousandths(a: nat)
    ensures ParseUnsigned(Thousandths(a)) == Some(a as real / 1000.0)
  {
    var d := NatToDigits(a / 1000);
    var p := Pad3(a % 1000);
    var body := d + "." + p;
    IndexOfAfterDigits(d, p);
    assert body[..|d|] == d;
    assert body[|d| + 1..] == p;
    var m := (a % 1000) as real;
    assert Shift(m, 3) == Shift(m, 2) / 10.0 == Shift(m, 1) / 100.0 == m / 1000.0;
    assert a == 1000 * (a / 1000) + a % 1000;
    assert (a / 1000) as real + (a % 1000) as real / 1000.0 == a as real / 1000.0;
  }

  /** Thousandths after a `-` read back negated. */
  lemma ParseNegative(a: nat)
    ensures ParseFixed("-" + Thousandths(a)) == Some(-(a as real / 1000.0))
  {
    var t := Thousandths(a);
    ParseThousandths(a);
    assert ("-" + t)[1..] == t;
  }

  /** Thousandths without a sign read back as they are. */
  lemma ParsePositive(a: nat)
    ensures ParseFixed(Thousandths(a)) == Some(a as real / 1000.0)
  {
    ParseThousandths(a);
  }

  /** A printed count of thousandths reads back with its sign. */
  lemma ParseSigned(neg: bool, a: nat)
    ensures ParseFixed(Signed(neg, a))
            == Some(if neg then -(a as real / 1000.0) else a as real / 1000.0)
  {
    if neg {
      ParseNegative(a);
    } else {
      ParsePositive(a);
    }
  }

  /** Reading a formatted value back gives the quantized value: formatting
      is exact on thousandths and loses only the rounding. */
  lemma FormatThenParse(x: real)
    ensures ParseFixed(Format(x)) == Some(Quantize(x))
  {
    var q := RoundHalfUp(x);
    ParseSigned(x < 0.0, Abs(q));
  }

  /** Formatting the quantized value prints the same string, except for a
      negative value that rounds to zero (it prints as `-0.000`, the
      quantized real as `0.000`). */
  lemma FormatQuantized(x: real)
    requires x >= 0.0 || x <= -0.0005
    ensures Format(Quantize(x)) == Format(x)
  {
    RoundHalfUpExact(RoundHalfUp(x));
  }
}
