/**
 * The share link of a file: the text form of the name-based (version 5) UUID of
 * the `file_id` text of the request in the URL namespace, as section 4.3 of
 * RFC 4122 defines it. The SHA-1 digest is a parameter; everything around it
 * (the UTF-8 bytes of the name, truncation to 16 bytes, the version and
 * variant bits, the hexadecimal layout of section 3 of RFC 4122) is spelled out.
 */
module ShareLinks {
  import Utf8

  /**
   * Two byte types meet here on purpose. The message that is hashed is made of
   * `Utf8.Byte`, octets as numbers, because UTF-8 is computed with `/` and `%`
   * on code points. The digest and the UUID are `Byte`, octets as bit vectors,
   * because setting the version and variant bits is masking and the hex form
   * splits each octet into nibbles.
   */
  type Byte = bv8

  /** A SHA-1 digest: 20 bytes. */
  type Digest = s: seq<Byte> | |s| == 20 witness seq(20, _ => 0 as Byte)

  /** SHA-1, a parameter of the model: the function from a message to its digest. */
  type Sha1 = seq<Utf8.Byte> -> Digest

  /** The URL namespace of RFC 4122, appendix C: 6ba7b811-9dad-11d1-80b4-00c04fd430c8. */
  const NamespaceUrl: seq<Utf8.Byte> :=
    [0x6b, 0xa7, 0xb8, 0x11, 0x9d, 0xad, 0x11, 0xd1, 0x80, 0xb4, 0x00, 0xc0, 0x4f, 0xd4, 0x30, 0xc8]

  /** The bytes `uuid5` hashes for a name: the namespace's 16 bytes, then the name in UTF-8. */
  function HashedName(name: string): (m: seq<Utf8.Byte>)
    ensures |m| >= 16 && m[..16] == NamespaceUrl
    ensures m[16..] == Utf8.Encode(name)
  {
    NamespaceUrl + Utf8.Encode(name)
  }

  /** The 16 bytes of the UUID: the digest's first 16, version 5 in byte 6, variant 10 in byte 8. */
  function UuidBytes(h: Digest): (b: seq<Byte>)
    ensures |b| == 16
    ensures b[6] >> 4 == 5
    ensures b[8] >> 6 == 2
    ensures b[6] & 0x0F == h[6] & 0x0F && b[8] & 0x3F == h[8] & 0x3F
    ensures forall i :: 0 <= i < 16 && i != 6 && i != 8 ==> b[i] == h[i]
  {
    h[..6] + [(h[6] & 0x0F) | 0x50] + [h[7]] + [(h[8] & 0x3F) | 0x80] + h[9..16]
  }

  predicate IsHexDigit(c: char) {
    '0' <= c <= '9' || 'a' <= c <= 'f'
  }

  function HexDigit(n: Byte): (c: char)
    requires n < 16
    ensures IsHexDigit(c)
  {
    "0123456789abcdef"[n as int]
  }

  function HexValue(c: char): (n: Byte)
    requires IsHexDigit(c)
    ensures n < 16
  {
    if c <= '9' then ((c as int) - ('0' as int)) as Byte else ((c as int) - ('a' as int) + 10) as Byte
  }

  lemma HexValueOfDigit(n: Byte)
    requires n < 16
    ensures HexValue(HexDigit(n)) == n
  {
  }

  /** Lower-case hexadecimal, two characters per byte, high nibble first. */
  function Hex(b: seq<Byte>): (s: string)
    ensures |s| == 2 * |b|
    ensures AllHex(s)
    ensures forall i :: 0 <= i < |b| ==> s[2 * i] == HexDigit(b[i] >> 4) && s[2 * i + 1] == HexDigit(b[i] & 0x0F)
  {
    if b == [] then [] else HexPair(b[0]) + Hex(b[1..])
  }

  /** The two hexadecimal digits of one byte. */
  function HexPair(x: Byte): (p: string)
    ensures |p| == 2 && IsHexDigit(p[0]) && IsHexDigit(p[1])
  {
    [HexDigit(x >> 4), HexDigit(x & 0x0F)]
  }

  /** The byte two hexadecimal digits denote. */
  function PairValue(hi: char, lo: char): Byte
    requires IsHexDigit(hi) && IsHexDigit(lo)
  {
    HexValue(hi) * 16 + HexValue(lo)
  }

  predicate AllHex(s: string) {
    forall i :: 0 <= i < |s| ==> IsHexDigit(s[i])
  }

  /** Reads hexadecimal text back into bytes. */
  function UnHex(s: string): (b: seq<Byte>)
    requires |s| % 2 == 0 && AllHex(s)
    ensures |b| == |s| / 2
  {
    if s == [] then [] else [PairValue(s[0], s[1])] + UnHex(s[2..])
  }

  lemma NibblesRecompose(x: Byte)
    ensures (x >> 4) * 16 + (x & 0x0F) == x
  {
  }

  /** Reading back the two digits of a byte gives the byte. */
  lemma HexByteRoundTrip(x: Byte)
    ensures PairValue(HexPair(x)[0], HexPair(x)[1]) == x
  {
    HexValueOfDigit(x >> 4);
    HexValueOfDigit(x & 0x0F);
    NibblesRecompose(x);
  }

  lemma {:induction false} UnHexHex(b: seq<Byte>)
    ensures UnHex(Hex(b)) == b
  {
    if b != [] {
      var x, s := b[0], Hex(b);
      assert s == HexPair(x) + Hex(b[1..]);
      HexByteRoundTrip(x);
      assert s[2..] == Hex(b[1..]);
      UnHexHex(b[1..]);
      assert b == [x] + b[1..];
    }
  }

  /** The 8-4-4-4-12 text form of a UUID. */
  function FormatUuid(b: seq<Byte>): (s: string)
    requires |b| == 16
    ensures |s| == 36
  {
    Hex(b[..4]) + "-" + Hex(b[4..6]) + "-" + Hex(b[6..8]) + "-" + Hex(b[8..10]) + "-" + Hex(b[10..])
  }

  /** Removes the four dashes and reads the 32 hexadecimal digits back. */
  function ParseUuid(s: string): (b: seq<Byte>)
    requires |s| == 36
    requires AllHex(s[..8] + s[9..13] + s[14..18] + s[19..23] + s[24..])
  {
    UnHex(s[..8] + s[9..13] + s[14..18] + s[19..23] + s[24..])
  }

  /** The digits of the text form, with the dashes taken out, are the hexadecimal of all 16 bytes. */
  lemma FormatUuidDigits(b: seq<Byte>)
    requires |b| == 16
    ensures var s := FormatUuid(b);
            s[..8] + s[9..13] + s[14..18] + s[19..23] + s[24..] == Hex(b)
  {
    var s := FormatUuid(b);
    var p0, p1, p2, p3, p4 := Hex(b[..4]), Hex(b[4..6]), Hex(b[6..8]), Hex(b[8..10]), Hex(b[10..]);
    DashedGroups(p0, p1, p2, p3, p4);
    assert s[..8] + s[9..13] + s[14..18] + s[19..23] + s[24..] == p0 + p1 + p2 + p3 + p4;
    HexGroups(b);
  }

  /** Taking the dashes out of the 8-4-4-4-12 layout gives the groups back. */
  lemma DashedGroups(p0: string, p1: string, p2: string, p3: string, p4: string)
    requires |p0| == 8 && |p1| == 4 && |p2| == 4 && |p3| == 4 && |p4| == 12
    ensures var s := p0 + "-" + p1 + "-" + p2 + "-" + p3 + "-" + p4;
            s[..8] == p0 && s[9..13] == p1 && s[14..18] == p2 && s[19..23] == p3 && s[24..] == p4
  {
  }

  /** The hexadecimal of the five byte groups, put together, is the hexadecimal of all 16 bytes. */
  lemma HexGroups(b: seq<Byte>)
    requires |b| == 16
    ensures Hex(b[..4]) + Hex(b[4..6]) + Hex(b[6..8]) + Hex(b[8..10]) + Hex(b[10..]) == Hex(b)
  {
    var x0, x1, x2, x3, x4 := b[..4], b[4..6], b[6..8], b[8..10], b[10..];
    assert b == x0 + x1 + x2 + x3 + x4;
    HexConcat(x0, x1);
    HexConcat(x0 + x1, x2);
    HexConcat(x0 + x1 + x2, x3);
    HexConcat(x0 + x1 + x2 + x3, x4);
  }

  lemma ParseFormatUuid(b: seq<Byte>)
    requires |b| == 16
    ensures var s := FormatUuid(b);
            AllHex(s[..8] + s[9..13] + s[14..18] + s[19..23] + s[24..]) && ParseUuid(s) == b
  {
    FormatUuidDigits(b);
    UnHexHex(b);
  }

  lemma HexConcat(a: seq<Byte>, b: seq<Byte>)
    ensures Hex(a + b) == Hex(a) + Hex(b)
  {
    var l, r := Hex(a + b), Hex(a) + Hex(b);
    assert |l| == |r|;
    forall k | 0 <= k < |l| ensures l[k] == r[k] {
      var i := k / 2;
      if i < |a| {
        assert (a + b)[i] == a[i];
      } else {
        assert (a + b)[i] == b[i - |a|];
        assert k - 2 * |a| == 2 * (i - |a|) + k % 2;
      }
    }
  }

  /** `str(uuid.uuid5(uuid.NAMESPACE_URL, name))` for a text `name`. */
  function ShareLink(sha1: Sha1, name: string): (s: string)
    ensures |s| == 36
  {
    FormatUuid(UuidBytes(sha1(HashedName(name))))
  }

  /**
   * Every share link is a well-formed version-5 UUID text: 36 characters,
   * dashes at 8, 13, 18 and 23, lower-case hexadecimal elsewhere, the version
   * digit '5' at 14 and a variant digit among 8, 9, a, b at 19; and it can be
   * read back into the 16 UUID bytes derived from the digest of the name.
   */
  lemma ShareLinkShape(sha1: Sha1, name: string)
    ensures var s := ShareLink(sha1, name);
            && s[8] == '-' && s[13] == '-' && s[18] == '-' && s[23] == '-'
            && (forall i :: 0 <= i < 36 && i != 8 && i != 13 && i != 18 && i != 23 ==> IsHexDigit(s[i]))
            && s[14] == '5'
            && s[19] in "89ab"
            && ParseUuid(s) == UuidBytes(sha1(HashedName(name)))
  {
    var b := UuidBytes(sha1(HashedName(name)));
    var s := ShareLink(sha1, name);
    assert s == FormatUuid(b);
    var h6, h8 := Hex(b[6..8]), Hex(b[8..10]);
    assert s[14] == h6[0] == HexDigit(b[6] >> 4);
    assert s[19] == h8[0] == HexDigit(b[8] >> 4);
    assert b[8] >> 4 == 8 || b[8] >> 4 == 9 || b[8] >> 4 == 10 || b[8] >> 4 == 11;
    ParseFormatUuid(b);
  }

  /**
   * The digest sees the text as sent, not the id it names: two different
   * texts (`"07"` and `"7"`) are two different hash inputs, although the id
   * lookup finds the same row for both.
   */
  lemma DistinctNamesAreDistinctHashInputs(name: string, name': string)
    ensures name != name' ==> HashedName(name) != HashedName(name')
  {
    if HashedName(name) == HashedName(name') {
      assert Utf8.Encode(name) == HashedName(name)[16..] == HashedName(name')[16..] == Utf8.Encode(name');
      Utf8.EncodeInjective(name, name');
    }
  }
}
