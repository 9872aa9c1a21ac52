/**
 * UTF-8 (RFC 3629, section 3): the byte form Python's `uuid5` gives a text
 * name before hashing it, `bytes(name, "utf-8")`, with a decoder as its inverse.
 */
module Utf8 {
  import opened Wrappers

  /** An octet, as a number. */
  newtype Byte = x: int | 0 <= x < 0x100

  /** The one- to four-byte encoding of a Unicode scalar value. */
  function EncodeChar(c: char): (b: seq<Byte>)
    ensures 1 <= |b| <= 4
    ensures |b| == 1 <==> (c as int) < 0x80
    ensures |b| == 1 ==> b[0] as int == c as int
    ensures forall i :: 1 <= i < |b| ==> IsContinuation(b[i])
  {
    var n := c as int;
    if n < 0x80 then [n as Byte]
    else if n < 0x800 then [(0xC0 + n / 0x40) as Byte, (0x80 + n % 0x40) as Byte]
    else if n < 0x10000 then
      [(0xE0 + n / 0x1000) as Byte, (0x80 + n / 0x40 % 0x40) as Byte, (0x80 + n % 0x40) as Byte]
    else
      [(0xF0 + n / 0x40000) as Byte, (0x80 + n / 0x1000 % 0x40) as Byte,
       (0x80 + n / 0x40 % 0x40) as Byte, (0x80 + n % 0x40) as Byte]
  }

  /** `bytes(s, "utf-8")`. */
  function Encode(s: string): (b: seq<Byte>)
    ensures |s| <= |b| <= 4 * |s|
  {
    if s == [] then [] else EncodeChar(s[0]) + Encode(s[1..])
  }

  predicate IsContinuation(x: Byte) {
    0x80 <= x < 0xC0
  }

  /**
   * Reads one character off the front of `b`, with the number of bytes it
   * took; none for a malformed, overlong or surrogate sequence.
   */
  function DecodeChar(b: seq<Byte>): (r: Option<(char, nat)>)
    ensures r.Some? ==> 1 <= r.value.1 <= |b|
  {
    if |b| == 0 then None
    else
      var x0 := b[0] as int;
      if x0 < 0x80 then Some((x0 as char, 1))
      else if 0xC0 <= x0 < 0xE0 && |b| >= 2 && IsContinuation(b[1]) then
        var n := (x0 - 0xC0) * 0x40 + (b[1] as int - 0x80);
        if n >= 0x80 then Some((n as char, 2)) else None
      else if 0xE0 <= x0 < 0xF0 && |b| >= 3 && IsContinuation(b[1]) && IsContinuation(b[2]) then
        var n := (x0 - 0xE0) * 0x1000 + (b[1] as int - 0x80) * 0x40 + (b[2] as int - 0x80);
        if n >= 0x800 && !(0xD800 <= n < 0xE000) then Some((n as char, 3)) else None
      else if 0xF0 <= x0 < 0xF8 && |b| >= 4 && IsContinuation(b[1]) && IsContinuation(b[2]) && IsContinuation(b[3]) then
        var n := (x0 - 0xF0) * 0x40000 + (b[1] as int - 0x80) * 0x1000 + (b[2] as int - 0x80) * 0x40 + (b[3] as int - 0x80);
        if 0x10000 <= n <= 0x10FFFF then Some((n as char, 4)) else None
      else None
  }

  /** The text a byte sequence encodes, if it is well-formed UTF-8. */
  function Decode(b: seq<Byte>): Option<string>
    decreases |b|
  {
    if b == [] then Some([])
    else
      match DecodeChar(b)
      case None => None
      case Some((c, k)) =>
        match Decode(b[k..])
        case None => None
        case Some(s) => Some([c] + s)
  }

  /** The encoding of a character is read back as that character, whatever follows it. */
  lemma DecodeEncodeChar(c: char, rest: seq<Byte>)
    ensures DecodeChar(EncodeChar(c) + rest) == Some((c, |EncodeChar(c)|))
  {
    var n := c as int;
    if n < 0x80 {
    } else if n < 0x800 {
      DecodeTwo(c, rest);
    } else if n < 0x10000 {
      DecodeThree(c, rest);
    } else {
      DecodeFour(c, rest);
    }
  }

  lemma DecodeTwo(c: char, rest: seq<Byte>)
    requires 0x80 <= c as int < 0x800
    ensures DecodeChar(EncodeChar(c) + rest) == Some((c, 2))
  {
    var n := c as int;
    var b := EncodeChar(c) + rest;
    assert b[0] as int == 0xC0 + n / 0x40 && b[1] as int == 0x80 + n % 0x40;
    assert (n / 0x40) * 0x40 + n % 0x40 == n;
  }

  lemma DecodeThree(c: char, rest: seq<Byte>)
    requires 0x800 <= c as int < 0x10000
    ensures DecodeChar(EncodeChar(c) + rest) == Some((c, 3))
  {
    var n := c as int;
    var b := EncodeChar(c) + rest;
    var d0, d1, d2 := n / 0x1000, n / 0x40 % 0x40, n % 0x40;
    assert b[0] as int == 0xE0 + d0 && b[1] as int == 0x80 + d1 && b[2] as int == 0x80 + d2;
    assert n / 0x40 == d0 * 0x40 + d1;
    assert d0 * 0x1000 + d1 * 0x40 + d2 == n;
  }

  lemma DecodeFour(c: char, rest: seq<Byte>)
    requires 0x10000 <= c as int
    ensures DecodeChar(EncodeChar(c) + rest) == Some((c, 4))
  {
    var n := c as int;
    var b := EncodeChar(c) + rest;
    var d0, d1, d2, d3 := n / 0x40000, n / 0x1000 % 0x40, n / 0x40 % 0x40, n % 0x40;
    assert b[0] as int == 0xF0 + d0 && b[1] as int == 0x80 + d1;
    assert b[2] as int == 0x80 + d2 && b[3] as int == 0x80 + d3;
    assert n / 0x1000 == d0 * 0x40 + d1;
    assert n / 0x40 == (n / 0x1000) * 0x40 + d2;
    assert d0 * 0x40000 + d1 * 0x1000 + d2 * 0x40 + d3 == n;
  }

  lemma {:induction false} DecodeEncode(s: string)
    ensures Decode(Encode(s)) == Some(s)
  {
    if s != [] {
      var e, rest := EncodeChar(s[0]), Encode(s[1..]);
      DecodeEncodeChar(s[0], rest);
      assert (e + rest)[|e|..] == rest;
      DecodeEncode(s[1..]);
      assert [s[0]] + s[1..] == s;
    }
  }

  /** Distinct texts have distinct encodings, so they are distinct hash inputs. */
  lemma EncodeInjective(s: string, s': string)
    ensures Encode(s) == Encode(s') ==> s == s'
  {
    DecodeEncode(s);
    DecodeEncode(s');
  }

  /** Text of ASCII characters is encoded one byte per character, each its own code. */
  lemma {:induction false} EncodeAscii(s: string)
    requires forall i :: 0 <= i < |s| ==> (s[i] as int) < 0x80
    ensures |Encode(s)| == |s|
    ensures forall i :: 0 <= i < |s| ==> Encode(s)[i] as int == s[i] as int
  {
    if s != [] {
      EncodeAscii(s[1..]);
      assert Encode(s) == [EncodeChar(s[0])[0]] + Encode(s[1..]);
    }
  }
}
