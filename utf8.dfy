/**
 * UTF-8 as Python's `str.encode("utf-8")` and strict `bytes.decode("utf-8")` apply it: the
 * store holds bytes; the code writes `str` values and decodes what it reads.
 */
module Utf8 {
  import opened Wrappers

  type Byte = b: int | 0 <= b < 256
  type Bytes = seq<Byte>

  predicate IsCont(b: int) { 0x80 <= b < 0xC0 }

  /** The UTF-8 encoding of one code point. */
  function EncodeChar(c: char): (b: Bytes)
    ensures 1 <= |b| <= 4
    ensures (c as int < 0x80) <==> |b| == 1
    ensures |b| == 1 ==> b[0] == c as int
  {
    var cp := c as int;
    if cp < 0x80 then [cp]
    else if cp < 0x800 then [0xC0 + cp / 64, 0x80 + cp % 64]
    else if cp < 0x10000 then [0xE0 + cp / 64 / 64, 0x80 + cp / 64 % 64, 0x80 + cp % 64]
    else [0xF0 + cp / 64 / 64 / 64, 0x80 + cp / 64 / 64 % 64, 0x80 + cp / 64 % 64, 0x80 + cp % 64]
  }

  /** Python `s.encode("utf-8")`. */
  function Encode(s: string): Bytes
    decreases |s|
  {
    if |s| == 0 then [] else EncodeChar(s[0]) + Encode(s[1..])
  }

  /** The first code point of `b` and the number of bytes it takes, if `b` starts well-formed. */
  function DecodeFirst(b: Bytes): Option<(char, nat)>
    requires |b| > 0
  {
    var b0: int := b[0];
    if b0 < 0x80 then Some((b0 as char, 1))
    else if 0xC2 <= b0 <= 0xDF then
      if |b| >= 2 && IsCont(b[1]) then
        var b1: int := b[1];
        Some((((b0 - 0xC0) * 64 + (b1 - 0x80)) as char, 2))
      else None
    else if 0xE0 <= b0 <= 0xEF then
      var lo := if b0 == 0xE0 then 0xA0 else 0x80;
      var hi := if b0 == 0xED then 0xA0 else 0xC0;
      if |b| >= 3 && lo <= b[1] < hi && IsCont(b[2]) then
        var b1: int, b2: int := b[1], b[2];
        Some((((b0 - 0xE0) * 4096 + (b1 - 0x80) * 64 + (b2 - 0x80)) as char, 3))
      else None
    else if 0xF0 <= b0 <= 0xF4 then
      var lo := if b0 == 0xF0 then 0x90 else 0x80;
      var hi := if b0 == 0xF4 then 0x90 else 0xC0;
      if |b| >= 4 && lo <= b[1] < hi && IsCont(b[2]) && IsCont(b[3]) then
        var b1: int, b2: int, b3: int := b[1], b[2], b[3];
        Some((((b0 - 0xF0) * 262144 + (b1 - 0x80) * 4096 + (b2 - 0x80) * 64 + (b3 - 0x80)) as char, 4))
      else None
    else None
  }

  /** Python `b.decode("utf-8")`; `None` is the `UnicodeDecodeError` it raises. */
  function Decode(b: Bytes): Option<string>
    decreases |b|
  {
    if |b| == 0 then Some("")
    else match DecodeFirst(b)
      case None => None
      case Some((c, n)) =>
        if n <= |b| then
          match Decode(b[n..])
          case None => None
          case Some(rest) => Some([c] + rest)
        else None
  }

  lemma DecodeFirstOfEncodeChar(c: char, rest: Bytes)
    ensures DecodeFirst(EncodeChar(c) + rest) == Some((c, |EncodeChar(c)|))
  {
    var cp := c as int;
    if cp < 0x80 {
    } else if cp < 0x800 {
      DecodeTwo(c, rest);
    } else if cp < 0x10000 {
      DecodeThree(c, rest);
    } else {
      DecodeFour(c, rest);
    }
  }

  lemma DecodeTwo(c: char, rest: Bytes)
    requires 0x80 <= c as int < 0x800
    ensures DecodeFirst(EncodeChar(c) + rest) == Some((c, 2))
  {
    var cp := c as int;
    var z, t := cp % 64, cp / 64;
    assert cp == t * 64 + z;
    var b := EncodeChar(c) + rest;
    assert b[0] == 0xC0 + t && b[1] == 0x80 + z;
  }

  lemma DecodeThree(c: char, rest: Bytes)
    requires 0x800 <= c as int < 0x10000
    ensures DecodeFirst(EncodeChar(c) + rest) == Some((c, 3))
  {
    var cp := c as int;
    var z, t := cp % 64, cp / 64;
    var y, a := t % 64, t / 64;
    assert cp == t * 64 + z && t == a * 64 + y;
    var b := EncodeChar(c) + rest;
    assert b[0] == 0xE0 + a && b[1] == 0x80 + y && b[2] == 0x80 + z;
    assert cp == a * 4096 + y * 64 + z;
  }

  lemma DecodeFour(c: char, rest: Bytes)
    requires 0x10000 <= c as int
    ensures DecodeFirst(EncodeChar(c) + rest) == Some((c, 4))
  {
    var cp := c as int;
    var z, t := cp % 64, cp / 64;
    var y, t2 := t % 64, t / 64;
    var x, a := t2 % 64, t2 / 64;
    assert cp == t * 64 + z && t == t2 * 64 + y && t2 == a * 64 + x;
    var b := EncodeChar(c) + rest;
    assert b[0] == 0xF0 + a && b[1] == 0x80 + x && b[2] == 0x80 + y && b[3] == 0x80 + z;
    assert cp == a * 262144 + x * 4096 + y * 64 + z;
  }

  /** Decoding what was encoded gives back the string. */
  lemma {:induction false} DecodeEncode(s: string)
    ensures Decode(Encode(s)) == Some(s)
    decreases |s|
  {
    if |s| > 0 {
      var e := EncodeChar(s[0]);
      DecodeFirstOfEncodeChar(s[0], Encode(s[1..]));
      assert (e + Encode(s[1..]))[|e|..] == Encode(s[1..]);
      DecodeEncode(s[1..]);
      assert s == [s[0]] + s[1..];
    }
  }

  lemma EncodeInjective(a: string, b: string)
    requires Encode(a) == Encode(b)
    ensures a == b
  {
    DecodeEncode(a);
    DecodeEncode(b);
  }

  /** ASCII text encodes byte for byte. */
  lemma {:induction false} EncodeAscii(s: string)
    requires forall i :: 0 <= i < |s| ==> s[i] as int < 0x80
    ensures |Encode(s)| == |s|
    ensures forall i :: 0 <= i < |s| ==> Encode(s)[i] == s[i] as int
    decreases |s|
  {
    if |s| > 0 { EncodeAscii(s[1..]); }
  }

  lemma {:induction false} EncodeAppend(a: string, b: string)
    ensures Encode(a + b) == Encode(a) + Encode(b)
    decreases |a|
  {
    if |a| > 0 {
      assert (a + b)[0] == a[0] && (a + b)[1..] == a[1..] + b;
      EncodeAppend(a[1..], b);
    } else {
      assert a + b == b;
    }
  }
}
