/**
 * Row keys of the weather tables: the `"%s~%s~%d"` key of a cached hour, the three-decimal
 * coordinates inside it, and the "increment the last byte" successor key used by the
 * paginated scan.
 */
module Keys {
  import opened Text
  import opened Lex
  import opened Utf8

  function Abs(m: int): nat { if m < 0 then -m else m }

  /** A non-negative number of thousandths as `int.fff`. */
  function Unsigned3(n: nat): string {
    Digits(n / 1000) + "." + Pad(n % 1000, 3)
  }

  lemma Unsigned3Shape(n: nat)
    ensures '~' !in Unsigned3(n) && |Unsigned3(n)| >= 5 && Unsigned3(n)[0] != '-'
  {
    DigitsBelowPow10(n % 1000, 3);
    PadLength(n % 1000, 3);
    assert |Pad(n % 1000, 3)| == 3;
    var s := Unsigned3(n);
    assert AllDigits(Digits(n / 1000)) && AllDigits(Pad(n % 1000, 3));
    assert forall i :: 0 <= i < |s| ==> s[i] == '.' || IsDigit(s[i]);
  }

  /**
   * `format(x, '.3f')` for a coordinate `x` given in thousandths of a degree (the rounding
   * of a float to three decimals happens before this point).
   */
  function Format3(m: int): (s: string)
    ensures '~' !in s && |s| >= 5
    ensures (s[0] == '-') <==> m < 0
  {
    Unsigned3Shape(Abs(m));
    (if m < 0 then "-" else "") + Unsigned3(Abs(m))
  }

  lemma DotPosition(a: string, b: string, x: string, y: string)
    requires AllDigits(b)
    ensures |a| < |b| ==> a + "." + x != b + "." + y
  {
    if |a| < |b| {
      assert (a + "." + x)[|a|] == '.';
      assert (b + "." + y)[|a|] == b[|a|];
    }
  }

  /** Two digit strings each followed by a `.` agree on the digits when the wholes agree. */
  lemma DotSplit(a: string, b: string, x: string, y: string)
    requires AllDigits(a) && AllDigits(b)
    requires a + "." + x == b + "." + y
    ensures a == b && x == y
  {
    var s := a + "." + x;
    DotPosition(a, b, x, y);
    DotPosition(b, a, y, x);
    assert a == s[..|a|] == b;
    assert x == s[|a| + 1..] == y;
  }

  lemma Unsigned3Injective(x: nat, y: nat)
    requires Unsigned3(x) == Unsigned3(y)
    ensures x == y
  {
    DotSplit(Digits(x / 1000), Digits(y / 1000), Pad(x % 1000, 3), Pad(y % 1000, 3));
    ValueOfDigits(x / 1000);
    ValueOfDigits(y / 1000);
    ValueOfPad(x % 1000, 3);
    ValueOfPad(y % 1000, 3);
  }

  /** Distinct coordinates format to distinct strings. */
  lemma Format3Injective(a: int, b: int)
    requires Format3(a) == Format3(b)
    ensures a == b
  {
    var s := Format3(a);
    Unsigned3Shape(Abs(a));
    Unsigned3Shape(Abs(b));
    if a < 0 {
      assert s[1..] == Unsigned3(Abs(a)) && s[1..] == Unsigned3(Abs(b));
    } else {
      assert s == Unsigned3(Abs(a)) == Unsigned3(Abs(b));
    }
    Unsigned3Injective(Abs(a), Abs(b));
  }

  /** `"%s~%s~%d" % (latitude, longitude, ts)`. */
  function RowKey(lat: string, lon: string, ts: int): string {
    Join([lat, lon, IntToString(ts)], '~')
  }

  lemma JoinThree(a: string, b: string, c: string, sep: char)
    ensures Join([a, b, c], sep) == a + [sep] + b + [sep] + c
  {
    assert [a, b, c][1..] == [b, c];
    assert [b, c][1..] == [c];
    assert Join([c], sep) == c;
    assert Join([b, c], sep) == b + [sep] + c;
  }

  predicate IsAscii(s: string) { forall i :: 0 <= i < |s| ==> s[i] as int < 0x80 }

  lemma AsciiAppend(a: string, b: string)
    requires IsAscii(a) && IsAscii(b)
    ensures IsAscii(a + b)
  {
    assert forall i :: 0 <= i < |a + b| ==> (a + b)[i] == (if i < |a| then a[i] else b[i - |a|]);
  }

  lemma AsciiEncode(s: string)
    requires IsAscii(s)
    ensures Encode(s) == Codes(s)
  {
    EncodeAscii(s);
  }

  /**
   * Within one location, the stored order of row keys is the numeric order of their
   * timestamps exactly when the timestamps have the same number of digits.
   */
  lemma RowKeyOrder(lat: string, lon: string, a: nat, b: nat)
    requires |Digits(a)| == |Digits(b)|
    ensures Less(Encode(RowKey(lat, lon, a)), Encode(RowKey(lat, lon, b))) <==> a < b
  {
    var p := lat + "~" + lon + "~";
    JoinThree(lat, lon, IntToString(a), '~');
    JoinThree(lat, lon, IntToString(b), '~');
    assert RowKey(lat, lon, a) == p + Digits(a);
    assert RowKey(lat, lon, b) == p + Digits(b);
    EncodeAppend(p, Digits(a));
    EncodeAppend(p, Digits(b));
    PrefixCancel(Encode(p), Encode(Digits(a)), Encode(Digits(b)));
    AsciiEncode(Digits(a));
    AsciiEncode(Digits(b));
    DigitsOrder(a, b);
  }

  /** Within one location, a smaller leading timestamp digit sorts first whatever the lengths. */
  lemma RowKeyLeadingDigit(lat: string, lon: string, a: nat, b: nat)
    requires Digits(a)[0] < Digits(b)[0]
    ensures Less(Encode(RowKey(lat, lon, a)), Encode(RowKey(lat, lon, b)))
  {
    var p := lat + "~" + lon + "~";
    JoinThree(lat, lon, IntToString(a), '~');
    JoinThree(lat, lon, IntToString(b), '~');
    assert RowKey(lat, lon, a) == p + Digits(a);
    assert RowKey(lat, lon, b) == p + Digits(b);
    EncodeAppend(p, Digits(a));
    EncodeAppend(p, Digits(b));
    PrefixCancel(Encode(p), Encode(Digits(a)), Encode(Digits(b)));
    AsciiEncode(Digits(a));
    AsciiEncode(Digits(b));
    FirstDifference(Codes(Digits(a)), Codes(Digits(b)), 0);
  }

  /** With different digit counts the stored order and the numeric order disagree. */
  lemma RowKeyOrderNeedsEqualWidth()
    ensures Less(Encode(RowKey("41.000", "2.000", 1000)), Encode(RowKey("41.000", "2.000", 999)))
  {
    assert Digits(1000)[0] == Digits(100)[0] == Digits(10)[0] == Digits(1)[0] == '1';
    assert Digits(999)[0] == Digits(99)[0] == Digits(9)[0] == '9';
    RowKeyLeadingDigit("41.000", "2.000", 1000, 999);
  }

  // ---- successor keys ----

  /** The source's successor key: `k[:-1] + chr(k[-1] + 1).encode("utf-8")`. */
  function SuccessorAsWritten(k: Bytes): Bytes
    requires |k| > 0
  {
    var b: int := k[|k| - 1];
    k[..|k| - 1] + EncodeChar((b + 1) as char)
  }

  /**
   * The successor the code evidently intends: the last byte plus one when that is still a
   * byte; for a final 0xFF byte, the key followed by a zero byte (the next key of all).
   */
  function Successor(k: Bytes): (s: Bytes)
    requires |k| > 0
    ensures Less(k, s)
  {
    var b := k[|k| - 1];
    if b < 255 then
      IncrementGreater(k[..|k| - 1], b);
      assert k == k[..|k| - 1] + [b];
      k[..|k| - 1] + [b + 1]
    else
      PrefixLess(k, k + [0]);
      k + [0]
  }

  lemma {:induction false} IncrementGreater(p: seq<int>, b: int)
    ensures Less(p + [b], p + [b + 1])
  {
    PrefixCancel(p, [b], [b + 1]);
  }

  lemma {:induction false} IncrementBetween(p: seq<int>, b: int, x: seq<int>)
    requires Less(p + [b], x) && Less(x, p + [b + 1])
    ensures IsProperPrefix(p + [b], x)
    decreases |p|
  {
    if |p| > 0 {
      assert (p + [b])[0] == p[0] && (p + [b + 1])[0] == p[0];
      assert (p + [b])[1..] == p[1..] + [b] && (p + [b + 1])[1..] == p[1..] + [b + 1];
      IncrementBetween(p[1..], b, x[1..]);
      assert x == [x[0]] + x[1..];
    } else {
      assert p + [b] == [b] && p + [b + 1] == [b + 1];
    }
  }

  lemma {:induction false} NothingBetweenExtension(k: seq<int>, x: Bytes)
    requires Less(k, x)
    ensures !Less(x, k + [0])
    decreases |k|
  {
    if |k| > 0 && |x| > 0 && x[0] == k[0] {
      assert (k + [0])[1..] == k[1..] + [0];
      NothingBetweenExtension(k[1..], x[1..]);
    }
  }

  /**
   * Every key strictly between `k` and its successor extends `k`, so resuming a scan at the
   * successor skips exactly the keys that have `k` as a proper prefix.
   */
  lemma SuccessorBetween(k: Bytes, x: Bytes)
    requires |k| > 0 && Less(k, x) && Less(x, Successor(k))
    ensures IsProperPrefix(k, x)
  {
    var b := k[|k| - 1];
    assert k == k[..|k| - 1] + [b];
    if b < 255 {
      IncrementBetween(k[..|k| - 1], b, x);
    } else {
      NothingBetweenExtension(k, x);
    }
  }

  /** A key in the range from a prefix to its successor starts with the prefix. */
  lemma PrefixRangeSound(p: Bytes, k: Bytes)
    requires |p| > 0 && !Less(k, p) && Less(k, Successor(p))
    ensures |p| <= |k| && k[..|p|] == p
  {
    Total(k, p);
    if k != p {
      SuccessorBetween(p, k);
    }
  }

  /** With a last byte below 0xFF, every key that starts with the prefix is in that range. */
  lemma PrefixRangeComplete(p: Bytes, k: Bytes)
    requires |p| > 0 && p[|p| - 1] < 255 && |p| <= |k| && k[..|p|] == p
    ensures !Less(k, p) && Less(k, Successor(p))
  {
    var n := |p|;
    var q, b := p[..n - 1], p[n - 1];
    if k == p {
      Irreflexive(p);
    } else {
      PrefixLess(p, k);
      Asymmetric(p, k);
      assert k == q + ([b] + k[n..]);
      assert Successor(p) == q + [b + 1];
      PrefixCancel(q, [b] + k[n..], [b + 1]);
    }
  }

  /** For a last byte below 0x7F (all keys of this system are ASCII) both successors agree. */
  lemma SuccessorAscii(k: Bytes)
    requires |k| > 0 && k[|k| - 1] < 0x7F
    ensures SuccessorAsWritten(k) == Successor(k)
  {
  }

  /** As written, key `[0x80]` is followed by `[0xC2, 0x81]`, and `[0x81]` lies between. */
  lemma SuccessorAsWrittenSkipsKeys()
    ensures SuccessorAsWritten([0x80]) == [0xC2, 0x81]
    ensures Less([0x80], [0x81]) && Less([0x81], SuccessorAsWritten([0x80]))
    ensures !IsProperPrefix([0x80], [0x81])
  {
  }

  /** As written, key `[0xFF]` is followed by `[0xC4, 0x80]`, which sorts before it. */
  lemma SuccessorAsWrittenGoesBack()
    ensures SuccessorAsWritten([0xFF]) == [0xC4, 0x80]
    ensures Less(SuccessorAsWritten([0xFF]), [0xFF])
  {
  }
}
