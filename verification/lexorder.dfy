/** Python's string ordering and `sorted(set(xs))` (scripts/backfill_pm25.py,
    line 67): strings compare lexicographically by code point, a proper
    prefix coming first. */
module LexOrder {

  /** `a < b` on Python strings. */
  predicate Below(a: string, b: string)
    decreases |a|
  {
    |b| > 0 && (|a| == 0 || a[0] < b[0] || (a[0] == b[0] && Below(a[1..], b[1..])))
  }

  lemma {:induction false} BelowIrreflexive(a: string)
    ensures !Below(a, a)
    decreases |a|
  {
    if |a| > 0 {
      BelowIrreflexive(a[1..]);
    }
  }

  lemma {:induction false} BelowTransitive(a: string, b: string, c: string)
    requires Below(a, b) && Below(b, c)
    ensures Below(a, c)
    decreases |a|
  {
    if |a| > 0 && a[0] == b[0] && b[0] == c[0] {
      BelowTransitive(a[1..], b[1..], c[1..]);
    }
  }

  lemma {:induction false} BelowTotal(a: string, b: string)
    ensures a == b || Below(a, b) || Below(b, a)
    decreases |a|
  {
    if |a| > 0 && |b| > 0 && a[0] == b[0] {
      BelowTotal(a[1..], b[1..]);
      if a[1..] == b[1..] {
        assert a == [a[0]] + a[1..] && b == [b[0]] + b[1..];
      }
    }
  }

  lemma BelowAsymmetric(a: string, b: string)
    requires Below(a, b)
    ensures !Below(b, a)
  {
    if Below(b, a) {
      BelowTransitive(a, b, a);
      BelowIrreflexive(a);
    }
  }

  /** Every element strictly below every later one: sorted without repeats. */
  predicate StrictlyAscending(s: seq<string>) {
    forall i, j :: 0 <= i < j < |s| ==> Below(s[i], s[j])
  }

  /** Inserts `x` into an ascending sequence, keeping it ascending and
      adding `x` only when it is not already there. */
  function Insert(x: string, s: seq<string>): (r: seq<string>)
    requires StrictlyAscending(s)
    ensures StrictlyAscending(r)
    ensures forall y :: y in r <==> y == x || y in s
  {
    if s == [] then [x]
    else if x == s[0] then s
    else if Below(x, s[0]) then
      assert forall j :: 0 < j < |s| ==> Below(x, s[j]) by {
        forall j | 0 < j < |s| {
          BelowTransitive(x, s[0], s[j]);
        }
      }
      [x] + s
    else
      var rest := Insert(x, s[1..]);
      assert Below(s[0], x) by {
        BelowTotal(x, s[0]);
      }
      assert forall y :: y in rest ==> Below(s[0], y);
      [s[0]] + rest
  }

  /** `sorted(set(xs))`: the distinct elements of `xs` in ascending order. */
  function SortedSet(xs: seq<string>): (r: seq<string>)
    ensures StrictlyAscending(r)
    ensures forall y :: y in r <==> y in xs
  {
    if xs == [] then []
    else
      var init := xs[..|xs| - 1];
      assert xs == init + [xs[|xs| - 1]];
      Insert(xs[|xs| - 1], SortedSet(init))
  }

  /** In an ascending sequence the first element is below all others. */
  lemma HeadIsLeast(s: seq<string>, y: string)
    requires StrictlyAscending(s) && y in s && y != s[0]
    ensures Below(s[0], y)
  {
  }

  /** Two ascending sequences with the same elements are equal, so the output
      order of `sorted(set(...))` is fully determined by the set. */
  lemma {:induction false} AscendingUnique(s: seq<string>, t: seq<string>)
    requires StrictlyAscending(s) && StrictlyAscending(t)
    requires forall y :: y in s <==> y in t
    ensures s == t
    decreases |s|
  {
    SameElementsBothEmpty(s, t);
    if s != [] && t != [] {
      if s[0] != t[0] {
        HeadIsLeast(s, t[0]);
        HeadIsLeast(t, s[0]);
        BelowAsymmetric(s[0], t[0]);
        assert false;
      }
      forall y | y in s[1..]
        ensures y in t[1..]
      {
        var i :| 1 <= i < |s| && s[i] == y;
        assert Below(s[0], y);
        BelowIrreflexive(y);
        assert y in s && y in t;
        var j :| 0 <= j < |t| && t[j] == y;
        assert j != 0;
        assert t[1..][j - 1] == y;
      }
      forall y | y in t[1..]
        ensures y in s[1..]
      {
        var i :| 1 <= i < |t| && t[i] == y;
        assert Below(t[0], y);
        BelowIrreflexive(y);
        assert y in t && y in s;
        var j :| 0 <= j < |s| && s[j] == y;
        assert j != 0;
        assert s[1..][j - 1] == y;
      }
      AscendingUnique(s[1..], t[1..]);
      assert s == [s[0]] + s[1..] && t == [t[0]] + t[1..];
    }
  }

  lemma SameElementsBothEmpty(s: seq<string>, t: seq<string>)
    requires forall y :: y in s <==> y in t
    ensures s == [] <==> t == []
  {
    if s != [] {
      assert s[0] in t;
    }
    if t != [] {
      assert t[0] in s;
    }
  }

  /** Ascending sequences have no repeated elements. */
  lemma AscendingDistinct(s: seq<string>, i: nat, j: nat)
    requires StrictlyAscending(s) && i < |s| && j < |s| && i != j
    ensures s[i] != s[j]
  {
    if i < j {
      BelowIrreflexive(s[i]);
    } else {
      BelowIrreflexive(s[j]);
    }
  }
}
