/**
 * String helpers with Python's semantics: `str(int)`, `int(str)`, `sep.join`, `str.split`,
 * `str.replace`, zero-padded `%0Nd`.
 */
module Text {
  import opened Wrappers
  import Lex

  predicate IsDigit(c: char) { '0' <= c <= '9' }

  predicate AllDigits(s: string) { forall i :: 0 <= i < |s| ==> IsDigit(s[i]) }

  function DigitChar(d: int): (c: char)
    requires 0 <= d < 10
    ensures IsDigit(c) && c as int - '0' as int == d
  {
    ('0' as int + d) as char
  }

  function DigitValue(c: char): (d: int)
    requires IsDigit(c)
    ensures 0 <= d < 10
  {
    c as int - '0' as int
  }

  /** Python `str(n)` for `n >= 0`: decimal digits without leading zeros. */
  function Digits(n: nat): (s: string)
    ensures 1 <= |s| && AllDigits(s)
    decreases n
  {
    if n < 10 then [DigitChar(n)] else Digits(n / 10) + [DigitChar(n % 10)]
  }

  /** The value of a string of decimal digits (leading zeros allowed). */
  function Value(s: string): nat
    requires AllDigits(s)
    decreases |s|
  {
    if |s| == 0 then 0 else Value(s[..|s| - 1]) * 10 + DigitValue(s[|s| - 1])
  }

  /** Python `str(i)` / `"%d" % i` for any integer. */
  function IntToString(i: int): string {
    if i < 0 then "-" + Digits(-i) else Digits(i)
  }

  /**
   * Python `int(s)` restricted to an optional sign followed by ASCII digits; `None` is the
   * `ValueError` it raises on anything else.
   */
  function ParseInt(s: string): Option<int> {
    if |s| > 0 && (s[0] == '-' || s[0] == '+') then
      if |s| > 1 && AllDigits(s[1..]) then
        var v: int := Value(s[1..]);
        Some(if s[0] == '-' then -v else v)
      else None
    else if |s| > 0 && AllDigits(s) then Some(Value(s))
    else None
  }

  lemma {:induction false} ValueOfDigits(n: nat)
    ensures Value(Digits(n)) == n
    decreases n
  {
    if n >= 10 {
      var s := Digits(n);
      assert s[..|s| - 1] == Digits(n / 10);
      ValueOfDigits(n / 10);
    }
  }

  /** `int(str(i)) == i`. */
  lemma ParseIntRoundTrip(i: int)
    ensures ParseInt(IntToString(i)) == Some(i)
  {
    if i < 0 {
      ParseNegative(-i);
    } else {
      ParseNatural(i);
    }
  }

  lemma ParseNatural(n: nat)
    ensures ParseInt(Digits(n)) == Some(n)
  {
    var s := Digits(n);
    assert IsDigit(s[0]);
    ValueOfDigits(n);
  }

  lemma ParseNegative(n: nat)
    requires n > 0
    ensures ParseInt("-" + Digits(n)) == Some(-(n as int))
  {
    var s := "-" + Digits(n);
    assert s[1..] == Digits(n);
    ValueOfDigits(n);
  }

  lemma IntToStringInjective(a: int, b: int)
    requires IntToString(a) == IntToString(b)
    ensures a == b
  {
    ParseIntRoundTrip(a);
    ParseIntRoundTrip(b);
  }

  lemma {:induction false} DigitsLength(n: nat, m: nat)
    requires n <= m
    ensures |Digits(n)| <= |Digits(m)|
    decreases m
  {
    if n >= 10 { DigitsLength(n / 10, m / 10); }
  }

  /**
   * Lexicographic order of decimal strings agrees with numeric order exactly when the two
   * have the same number of digits.
   */
  lemma {:induction false} DigitsOrder(a: nat, b: nat)
    requires |Digits(a)| == |Digits(b)|
    ensures Lex.StrLess(Digits(a), Digits(b)) <==> a < b
    decreases a
  {
    var da, db := Digits(a), Digits(b);
    if a < 10 || b < 10 {
      assert (a >= 10 ==> |Digits(a)| >= 2) && (b >= 10 ==> |Digits(b)| >= 2);
      assert Lex.Codes(da) == [da[0] as int] && Lex.Codes(db) == [db[0] as int];
      assert Lex.Less(Lex.Codes(da), Lex.Codes(db)) <==> da[0] as int < db[0] as int;
    } else {
      var pa, pb := Digits(a / 10), Digits(b / 10);
      var ca, cb := DigitChar(a % 10), DigitChar(b % 10);
      assert |pa| == |pb|;
      DigitsOrder(a / 10, b / 10);
      Lex.CodesAppend(pa, [ca]);
      Lex.CodesAppend(pb, [cb]);
      assert Lex.Codes([ca]) == [ca as int] && Lex.Codes([cb]) == [cb as int];
      Lex.AppendEqualLength(Lex.Codes(pa), Lex.Codes(pb), ca as int, cb as int);
      assert Lex.StrLess(da, db) <==> Lex.StrLess(pa, pb) || (Lex.Codes(pa) == Lex.Codes(pb) && a % 10 < b % 10);
      if Lex.Codes(pa) == Lex.Codes(pb) {
        Lex.CodesInjective(pa, pb);
        ValueOfDigits(a / 10);
        ValueOfDigits(b / 10);
        assert a / 10 == b / 10;
      } else {
        assert pa != pb;
        assert a / 10 != b / 10;
      }
    }
  }

  /** Zero-padded decimal, Python `"%0*d" % (width, n)`. */
  function Pad(n: nat, width: nat): (s: string)
    ensures AllDigits(s) && |s| >= width && |s| >= 1
    decreases width
  {
    if |Digits(n)| >= width then Digits(n) else "0" + Pad(n, width - 1)
  }

  lemma {:induction false} ValueLeadingZero(t: string)
    requires AllDigits(t)
    ensures Value("0" + t) == Value(t)
    decreases |t|
  {
    if |t| > 0 {
      var s := "0" + t;
      assert s[..|s| - 1] == "0" + t[..|t| - 1];
      ValueLeadingZero(t[..|t| - 1]);
    }
  }

  lemma {:induction false} ValueOfPad(n: nat, width: nat)
    ensures Value(Pad(n, width)) == n
    decreases width
  {
    if |Digits(n)| >= width {
      ValueOfDigits(n);
    } else {
      ValueLeadingZero(Pad(n, width - 1));
      ValueOfPad(n, width - 1);
    }
  }

  /** A number with at most `width` digits pads to exactly `width` characters. */
  lemma {:induction false} PadLength(n: nat, width: nat)
    requires |Digits(n)| <= width
    ensures |Pad(n, width)| == width
    decreases width
  {
    if |Digits(n)| < width { PadLength(n, width - 1); }
  }

  function Pow10(k: nat): nat { if k == 0 then 1 else 10 * Pow10(k - 1) }

  lemma {:induction false} DigitsBelowPow10(n: nat, k: nat)
    requires 1 <= k && n < Pow10(k)
    ensures |Digits(n)| <= k
    decreases k
  {
    if n >= 10 {
      assert k >= 2;
      DigitsBelowPow10(n / 10, k - 1);
    }
  }

  /** Python `sep.join(parts)`. */
  function Join(parts: seq<string>, sep: char): string
    decreases |parts|
  {
    if |parts| == 0 then "" else if |parts| == 1 then parts[0]
    else parts[0] + [sep] + Join(parts[1..], sep)
  }

  /** The index of the first occurrence of `c` in `s`. */
  function IndexOf(s: string, c: char): (i: nat)
    requires c in s
    ensures i < |s| && s[i] == c && c !in s[..i]
    decreases |s|
  {
    if s[0] == c then 0 else 1 + IndexOf(s[1..], c)
  }

  /** Python `s.split(sep)` for a one-character separator. */
  function Split(s: string, sep: char): (parts: seq<string>)
    ensures |parts| >= 1
    decreases |s|
  {
    if sep !in s then [s]
    else
      var i := IndexOf(s, sep);
      [s[..i]] + Split(s[i + 1..], sep)
  }

  lemma {:induction false} SplitParts(s: string, sep: char)
    ensures forall k :: 0 <= k < |Split(s, sep)| ==> sep !in Split(s, sep)[k]
    decreases |s|
  {
    if sep in s {
      var i := IndexOf(s, sep);
      SplitParts(s[i + 1..], sep);
    }
  }

  lemma {:induction false} IndexOfUnique(s: string, c: char, j: nat)
    requires j < |s| && s[j] == c && c !in s[..j]
    ensures IndexOf(s, c) == j
    decreases j
  {
    if j > 0 {
      assert s[0] == s[..j][0];
      assert s[1..][j - 1] == c;
      assert s[1..][..j - 1] == s[..j][1..];
      IndexOfUnique(s[1..], c, j - 1);
    }
  }

  /** Joining what `split` produced gives back the string. */
  lemma {:induction false} JoinSplit(s: string, sep: char)
    ensures Join(Split(s, sep), sep) == s
    decreases |s|
  {
    if sep in s {
      var i := IndexOf(s, sep);
      var rest := Split(s[i + 1..], sep);
      assert Split(s, sep) == [s[..i]] + rest;
      assert ([s[..i]] + rest)[1..] == rest;
      assert Join(Split(s, sep), sep) == s[..i] + [sep] + Join(rest, sep);
      JoinSplit(s[i + 1..], sep);
      assert s == s[..i] + [sep] + s[i + 1..];
    }
  }

  /** Splitting at a first separator gives the text before it and the split of the rest. */
  lemma SplitCons(p0: string, rest: string, sep: char)
    requires sep !in p0
    ensures Split(p0 + [sep] + rest, sep) == [p0] + Split(rest, sep)
  {
    var s := p0 + [sep] + rest;
    assert s[|p0|] == sep;
    assert s[..|p0|] == p0;
    IndexOfUnique(s, sep, |p0|);
    assert s[|p0| + 1..] == rest;
  }

  /** Splitting a join of separator-free parts gives back the parts. */
  lemma {:induction false} SplitJoin(parts: seq<string>, sep: char)
    requires |parts| >= 1
    requires forall k :: 0 <= k < |parts| ==> sep !in parts[k]
    ensures Split(Join(parts, sep), sep) == parts
    decreases |parts|
  {
    if |parts| > 1 {
      SplitCons(parts[0], Join(parts[1..], sep), sep);
      SplitJoin(parts[1..], sep);
      assert parts == [parts[0]] + parts[1..];
    }
  }

  lemma ConcatAssoc<T>(x: seq<T>, y: seq<T>, z: seq<T>)
    ensures x + (y + z) == (x + y) + z
  {
  }

  /** Splitting at the first separator, found at `i`. */
  lemma SplitAt(s: string, i: nat, sep: char)
    requires i < |s| && s[i] == sep && sep !in s[..i]
    ensures Split(s, sep) == [s[..i]] + Split(s[i + 1..], sep)
  {
    IndexOfUnique(s, sep, i);
  }

  /** Splitting around one separator splits the two sides on their own. */
  lemma {:induction false} SplitAppend(a: string, b: string, sep: char)
    ensures Split(a + [sep] + b, sep) == Split(a, sep) + Split(b, sep)
    decreases |a|
  {
    var s := a + [sep] + b;
    if sep !in a {
      assert s[..|a|] == a && s[|a| + 1..] == b;
      SplitAt(s, |a|, sep);
      assert Split(a, sep) == [a];
    } else {
      var i := IndexOf(a, sep);
      var p, q := a[..i], a[i + 1..];
      assert a == p + [sep] + q;
      assert s == p + [sep] + (q + [sep] + b);
      assert s[..i] == p && s[i + 1..] == q + [sep] + b;
      SplitAt(s, i, sep);
      SplitAt(a, i, sep);
      SplitAppend(q, b, sep);
      ConcatAssoc([p], Split(q, sep), Split(b, sep));
    }
  }

  /** The text after the last separator is the text after a final separator-free part. */
  lemma AfterLastAppend(a: string, b: string, sep: char)
    requires sep !in b
    ensures AfterLast(a + [sep] + b, sep) == b
  {
    SplitAppend(a, b, sep);
  }

  /** Python `s.split(sep)[-1]`: the text after the last separator. */
  function AfterLast(s: string, sep: char): string {
    var parts := Split(s, sep);
    parts[|parts| - 1]
  }

  lemma {:induction false} AfterLastIsSuffix(s: string, sep: char)
    ensures var r := AfterLast(s, sep);
      |r| <= |s| && s[|s| - |r|..] == r
    decreases |s|
  {
    if sep in s {
      var i := IndexOf(s, sep);
      AfterLastIsSuffix(s[i + 1..], sep);
      assert AfterLast(s, sep) == AfterLast(s[i + 1..], sep);
    }
  }

  /**
   * `s.split(sep)[-1]` contains no separator; it is the whole string when there is none,
   * and otherwise it is exactly what follows the last separator.
   */
  lemma AfterLastSpec(s: string, sep: char)
    ensures var r := AfterLast(s, sep);
      && sep !in r
      && |r| <= |s| && s[|s| - |r|..] == r
      && (sep !in s <==> r == s)
      && (sep in s ==> s[|s| - |r| - 1] == sep)
  {
    SplitParts(s, sep);
    AfterLastIsSuffix(s, sep);
    var r := AfterLast(s, sep);
    var parts := Split(s, sep);
    if sep in s {
      JoinSplit(s, sep);
      JoinLast(parts, sep);
      assert r != s by { assert sep in s; }
    }
  }

  lemma {:induction false} JoinLast(parts: seq<string>, sep: char)
    requires |parts| >= 2
    ensures var s := Join(parts, sep); var r := parts[|parts| - 1];
      |r| < |s| && s[|s| - |r| - 1] == sep && s[|s| - |r|..] == r
    decreases |parts|
  {
    var s := Join(parts, sep);
    assert s == parts[0] + [sep] + Join(parts[1..], sep);
    if |parts| > 2 {
      JoinLast(parts[1..], sep);
    }
  }

  predicate OccursAt(s: string, pat: string, i: nat) {
    i + |pat| <= |s| && s[i..i + |pat|] == pat
  }

  /** `pat in s`. */
  predicate Contains(s: string, pat: string) {
    exists i: nat | i <= |s| :: OccursAt(s, pat, i)
  }

  /** Python `s.replace(pat, "")` for a non-empty `pat`: leftmost, non-overlapping. */
  function RemoveAll(s: string, pat: string): string
    requires |pat| > 0
    decreases |s|
  {
    if |s| < |pat| then s
    else if s[..|pat|] == pat then RemoveAll(s[|pat|..], pat)
    else [s[0]] + RemoveAll(s[1..], pat)
  }

  /** Removing every occurrence of a pattern that does not occur changes nothing. */
  lemma {:induction false} RemoveAllAbsent(s: string, pat: string)
    requires |pat| > 0 && !Contains(s, pat)
    ensures RemoveAll(s, pat) == s
    decreases |s|
  {
    if |s| >= |pat| {
      assert !OccursAt(s, pat, 0);
      assert s[0..|pat|] == s[..|pat|];
      forall i: nat | i <= |s| - 1 && OccursAt(s[1..], pat, i) ensures OccursAt(s, pat, i + 1) {
        assert s[1..][i..i + |pat|] == s[i + 1..i + 1 + |pat|];
      }
      RemoveAllAbsent(s[1..], pat);
      assert s == [s[0]] + s[1..];
    }
  }

  /** A leading occurrence is removed and the rest is processed on its own. */
  lemma RemoveAllLeading(pat: string, f: string)
    requires |pat| > 0
    ensures RemoveAll(pat + f, pat) == RemoveAll(f, pat)
  {
    assert (pat + f)[..|pat|] == pat;
    assert (pat + f)[|pat|..] == f;
  }

  /** Python `s.replace(c, rep)` for a single character `c`. */
  function ReplaceChar(s: string, c: char, rep: string): string
    decreases |s|
  {
    if |s| == 0 then ""
    else (if s[0] == c then rep else [s[0]]) + ReplaceChar(s[1..], c, rep)
  }

  /**
   * After `replace`, no occurrence of the character is left when the replacement has none,
   * and a string without the character is unchanged.
   */
  lemma {:induction false} ReplaceCharSpec(s: string, c: char, rep: string)
    ensures c !in rep ==> c !in ReplaceChar(s, c, rep)
    ensures c !in s ==> ReplaceChar(s, c, rep) == s
    decreases |s|
  {
    if |s| > 0 {
      ReplaceCharSpec(s[1..], c, rep);
      if c !in s { assert c !in s[1..]; }
    }
  }

  /** A character in neither the string nor the replacement is not in the result of `replace`. */
  lemma {:induction false} ReplaceCharAbsent(s: string, c: char, rep: string, x: char)
    requires x !in s && x !in rep
    ensures x !in ReplaceChar(s, c, rep)
    decreases |s|
  {
    if |s| > 0 {
      assert x !in s[1..];
      ReplaceCharAbsent(s[1..], c, rep, x);
    }
  }
}
