/**
 * Lexicographic order on sequences of code units: the order in which the store keeps
 * row keys (bytes) and in which Python compares strings (code points).
 */
module Lex {
  /** `a` sorts strictly before `b`: a proper prefix, or smaller at the first difference. */
  predicate Less(a: seq<int>, b: seq<int>)
    decreases |a|
  {
    if |a| == 0 then |b| > 0
    else if |b| == 0 then false
    else if a[0] != b[0] then a[0] < b[0]
    else Less(a[1..], b[1..])
  }

  predicate LessEq(a: seq<int>, b: seq<int>) {
    a == b || Less(a, b)
  }

  predicate IsProperPrefix(p: seq<int>, s: seq<int>) {
    |p| < |s| && s[..|p|] == p
  }

  /** The code points of a string. */
  function Codes(s: string): (r: seq<int>)
    ensures |r| == |s|
    ensures forall i :: 0 <= i < |s| ==> r[i] == s[i] as int
  {
    seq(|s|, i requires 0 <= i < |s| => s[i] as int)
  }

  /** Python's `<` on `str`. */
  predicate StrLess(a: string, b: string) {
    Less(Codes(a), Codes(b))
  }

  lemma CodesAppend(a: string, b: string)
    ensures Codes(a + b) == Codes(a) + Codes(b)
  {
  }

  lemma CodesInjective(a: string, b: string)
    requires Codes(a) == Codes(b)
    ensures a == b
  {
    assert |a| == |b|;
    forall i | 0 <= i < |a| ensures a[i] == b[i] {
      assert Codes(a)[i] == Codes(b)[i];
    }
  }

  lemma {:induction false} Irreflexive(a: seq<int>)
    ensures !Less(a, a)
    decreases |a|
  {
    if |a| > 0 { Irreflexive(a[1..]); }
  }

  lemma {:induction false} Asymmetric(a: seq<int>, b: seq<int>)
    requires Less(a, b)
    ensures !Less(b, a)
    decreases |a|
  {
    if |a| > 0 && |b| > 0 && a[0] == b[0] { Asymmetric(a[1..], b[1..]); }
  }

  lemma {:induction false} Transitive(a: seq<int>, b: seq<int>, c: seq<int>)
    requires Less(a, b) && Less(b, c)
    ensures Less(a, c)
    decreases |a|
  {
    if |a| > 0 && a[0] == b[0] && b[0] == c[0] {
      Transitive(a[1..], b[1..], c[1..]);
    }
  }

  lemma {:induction false} Total(a: seq<int>, b: seq<int>)
    ensures a == b || Less(a, b) || Less(b, a)
    decreases |a|
  {
    if |a| > 0 && |b| > 0 && a[0] == b[0] {
      Total(a[1..], b[1..]);
      if a[1..] == b[1..] {
        assert a == [a[0]] + a[1..] && b == [b[0]] + b[1..];
      }
    }
  }

  /** A common prefix does not change the order. */
  lemma {:induction false} PrefixCancel(p: seq<int>, x: seq<int>, y: seq<int>)
    ensures Less(p + x, p + y) <==> Less(x, y)
    decreases |p|
  {
    if |p| > 0 {
      assert (p + x)[1..] == p[1..] + x;
      assert (p + y)[1..] == p[1..] + y;
      assert (p + x)[0] == p[0] == (p + y)[0];
      assert Less(p + x, p + y) == Less((p + x)[1..], (p + y)[1..]);
      PrefixCancel(p[1..], x, y);
    } else {
      assert p + x == x && p + y == y;
    }
  }

  /** A proper prefix sorts before the longer sequence. */
  lemma {:induction false} PrefixLess(p: seq<int>, s: seq<int>)
    requires IsProperPrefix(p, s)
    ensures Less(p, s)
    decreases |p|
  {
    if |p| > 0 {
      assert s[1..][..|p| - 1] == p[1..];
      PrefixLess(p[1..], s[1..]);
    }
  }

  /** For sequences of equal length, appending one element each refines the order. */
  lemma {:induction false} AppendEqualLength(a: seq<int>, b: seq<int>, x: int, y: int)
    requires |a| == |b|
    ensures Less(a + [x], b + [y]) <==> Less(a, b) || (a == b && x < y)
    decreases |a|
  {
    if |a| > 0 {
      assert (a + [x])[1..] == a[1..] + [x];
      assert (b + [y])[1..] == b[1..] + [y];
      AppendEqualLength(a[1..], b[1..], x, y);
      if a[0] == b[0] && a[1..] == b[1..] {
        assert a == [a[0]] + a[1..] && b == [b[0]] + b[1..];
      }
    } else {
      assert a == [] && b == [];
    }
  }

  /** At the first index where two sequences differ, the smaller element decides. */
  lemma {:induction false} FirstDifference(a: seq<int>, b: seq<int>, i: nat)
    requires i < |a| && i < |b| && a[..i] == b[..i] && a[i] < b[i]
    ensures Less(a, b)
    decreases i
  {
    if i > 0 {
      assert a[1..][..i - 1] == a[..i][1..];
      assert b[1..][..i - 1] == b[..i][1..];
      assert a[0] == a[..i][0] == b[..i][0] == b[0];
      FirstDifference(a[1..], b[1..], i - 1);
    }
  }
}
