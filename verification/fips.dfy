/** FIPS key normalisation (scripts/backfill_pm25.py, lines 35 and 58):
    a raw cell becomes `(cell or '').strip().zfill(5)`, and its state is the
    two-character prefix `fips[:2]`. */
module Fips {
  import opened Wrappers

  /** Python's `str.isspace()` characters: those `str.strip()` removes when
      called without arguments. */
  const Whitespace: set<char> := {
    '\t', '\n', '\U{0B}', '\U{0C}', '\r', '\U{1C}', '\U{1D}', '\U{1E}', '\U{1F}', ' ',
    '\U{85}', '\U{A0}', '\U{1680}',
    '\U{2000}', '\U{2001}', '\U{2002}', '\U{2003}', '\U{2004}', '\U{2005}',
    '\U{2006}', '\U{2007}', '\U{2008}', '\U{2009}', '\U{200A}',
    '\U{2028}', '\U{2029}', '\U{202F}', '\U{205F}', '\U{3000}'
  }

  predicate IsSpace(c: char) {
    c in Whitespace
  }

  predicate AllSpace(s: string) {
    forall k :: 0 <= k < |s| ==> IsSpace(s[k])
  }

  /** No whitespace at either end: what `strip()` guarantees of its result. */
  predicate Stripped(s: string) {
    s == [] || (!IsSpace(s[0]) && !IsSpace(s[|s| - 1]))
  }

  /** Drops the leading whitespace of `s`; the result does not start with
      whitespace (`TrimStartDrops` says what was dropped). */
  function TrimStart(s: string): (r: string)
    ensures |r| <= |s|
    ensures r == [] || !IsSpace(r[0])
  {
    if |s| > 0 && IsSpace(s[0]) then
      TrimStart(s[1..])
    else s
  }

  /** Drops the trailing whitespace of `s`; the result does not end with
      whitespace (`TrimEndDrops` says what was dropped). */
  function TrimEnd(s: string): (r: string)
    ensures |r| <= |s|
    ensures r == [] || (r[0] == s[0] && !IsSpace(r[|r| - 1]))
  {
    if |s| > 0 && IsSpace(s[|s| - 1]) then TrimEnd(s[..|s| - 1]) else s
  }

  /** `TrimStart` keeps a suffix of its input and drops only whitespace. */
  lemma {:induction false} TrimStartDrops(s: string)
    ensures var r := TrimStart(s);
            r == s[|s| - |r|..] && AllSpace(s[..|s| - |r|])
  {
    if |s| > 0 && IsSpace(s[0]) {
      TrimStartDrops(s[1..]);
      var r := TrimStart(s);
      assert s[1..][|s| - 1 - |r|..] == s[|s| - |r|..];
      assert s[..|s| - |r|] == [s[0]] + s[1..][..|s| - 1 - |r|];
    }
  }

  /** `TrimEnd` keeps a prefix of its input and drops only whitespace. */
  lemma {:induction false} TrimEndDrops(s: string)
    ensures var r := TrimEnd(s);
            r == s[..|r|] && AllSpace(s[|r|..])
  {
    if |s| > 0 && IsSpace(s[|s| - 1]) {
      TrimEndDrops(s[..|s| - 1]);
      var r := TrimEnd(s);
      assert s[..|s| - 1][..|r|] == s[..|r|];
      assert s[|r|..] == s[..|s| - 1][|r|..] + [s[|s| - 1]];
    }
  }

  /** `str.strip()`: no whitespace is left at either end. */
  function Strip(s: string): (r: string)
    ensures Stripped(r)
    ensures |r| <= |s|
  {
    TrimEnd(TrimStart(s))
  }

  /** What `strip()` removes is whitespace at the two ends and nothing else:
      the result is an infix of the input between whitespace margins. */
  lemma StripRemovesOnlyMargins(s: string)
    ensures var r := Strip(s);
            exists i :: 0 <= i <= |s| - |r| && r == s[i..i + |r|]
                        && AllSpace(s[..i]) && AllSpace(s[i + |r|..])
  {
    var t := TrimStart(s);
    var r := TrimEnd(t);
    var i := |s| - |t|;
    TrimStartDrops(s);
    TrimEndDrops(t);
    assert t == s[i..] && r == t[..|r|];
    assert r == s[i..i + |r|];
    assert s[i + |r|..] == t[|r|..];
    assert AllSpace(s[..i]) && AllSpace(s[i + |r|..]);
  }

  predicate IsSign(c: char) {
    c == '+' || c == '-'
  }

  /** A run of `n` zero characters. */
  function Zeros(n: nat): (r: string)
    ensures |r| == n
    ensures forall k :: 0 <= k < n ==> r[k] == '0'
  {
    if n == 0 then [] else Zeros(n - 1) + "0"
  }

  /** `str.zfill(width)`: a string shorter than `width` is padded to exactly
      `width` characters (`ZFillShape` says where the zeros go). */
  function ZFill(s: string, width: nat): (r: string)
    ensures |r| == if |s| >= width then |s| else width
  {
    if |s| >= width then s
    else if s != [] && IsSign(s[0]) then [s[0]] + Zeros(width - |s|) + s[1..]
    else Zeros(width - |s|) + s
  }

  /** The padding of `ZFill` is zeros placed in front of the string, or right
      after its sign when it has one; a long enough string is left as it is. */
  lemma ZFillShape(s: string, width: nat)
    ensures var r := ZFill(s, width);
            && (|s| >= width ==> r == s)
            && (|s| < width && (s == [] || !IsSign(s[0])) ==>
                  r[width - |s|..] == s && forall k :: 0 <= k < width - |s| ==> r[k] == '0')
            && (|s| < width && s != [] && IsSign(s[0]) ==>
                  r[0] == s[0] && r[width - |s| + 1..] == s[1..]
                  && forall k :: 1 <= k <= width - |s| ==> r[k] == '0')
  {
    var r := ZFill(s, width);
    if |s| < width && s != [] && IsSign(s[0]) {
      assert r[width - |s| + 1..] == s[1..];
    } else if |s| < width {
      assert r[width - |s|..] == s;
    }
  }

  const KeyWidth: nat := 5

  /** The county key of a raw CSV cell: `(cell or '').strip().zfill(5)`.
      It is never empty, so the script's `if not fips: continue` never fires. */
  function NormalizeFips(cell: Option<string>): (r: string)
    ensures |r| >= KeyWidth
  {
    ZFill(Strip(cell.GetOr("")), KeyWidth)
  }

  /** `fips[:2]`: the state part of a key (Python slicing never fails). */
  function StateOf(fips: string): (r: string)
    ensures |r| == if |fips| < 2 then |fips| else 2
    ensures r <= fips
  {
    if |fips| < 2 then fips else fips[..2]
  }

  /** Whitespace alone strips to nothing. */
  lemma {:induction false} StripAllSpace(s: string)
    requires AllSpace(s)
    ensures Strip(s) == []
  {
    if s != [] {
      StripAllSpace(s[1..]);
      assert TrimStart(s) == TrimStart(s[1..]);
    }
  }

  /** A missing, empty or all-whitespace cell becomes the key "00000". */
  lemma BlankCellIsZeroKey(cell: Option<string>)
    requires cell.None? || AllSpace(cell.value)
    ensures NormalizeFips(cell) == "00000"
  {
    StripAllSpace(cell.GetOr(""));
    ZFillShape([], KeyWidth);
    var z := ZFill([], KeyWidth);
    assert |z| == 5 && forall k :: 0 <= k < 5 ==> z[k] == '0';
    assert z == "00000";
  }

  /** A stripped string is its own strip. */
  lemma StripOfStripped(s: string)
    requires Stripped(s)
    ensures Strip(s) == s
  {
  }

  /** Zero-filling a stripped string keeps it stripped. */
  lemma ZFillKeepsStripped(s: string, width: nat)
    requires Stripped(s)
    ensures Stripped(ZFill(s, width))
  {
    var r := ZFill(s, width);
    ZFillShape(s, width);
    if |s| < width {
      assert r[0] == '0' || IsSign(r[0]);
      assert r[|r| - 1] == '0' || r[|r| - 1] == s[|s| - 1];
    }
  }

  /** Normalising an already normalised key changes nothing, so a key read
      back from the script's own output maps to itself. */
  lemma NormalizeIdempotent(cell: Option<string>)
    ensures NormalizeFips(Some(NormalizeFips(cell))) == NormalizeFips(cell)
  {
    var k := NormalizeFips(cell);
    ZFillKeepsStripped(Strip(cell.GetOr("")), KeyWidth);
    StripOfStripped(k);
  }
}
