/** The byte views of a .NET string that the two checksum classes hash:
    its UTF-16 code units in memory order (little-endian), its ASCII
    encoding, and its UTF-8 encoding.  A Dafny `string` is a sequence of
    Unicode scalar values; a .NET string holds the same text as UTF-16
    code units, so a scalar above U+FFFF is one `char` here and a surrogate
    pair there. */
module Encodings {
  import opened Bytes

  /** The UTF-16 code units of one scalar value (section 3.9 of the Unicode
      Standard, definition D91). */
  function CodeUnits(c: char): (units: seq<int>)
    ensures 1 <= |units| <= 2
    ensures forall i :: 0 <= i < |units| ==> 0 <= units[i] < 0x1_0000
    ensures |units| == 1 <==> (c as int) < 0x1_0000
    ensures |units| == 1 ==> units[0] == c as int
    ensures |units| == 2 ==> 0xD800 <= units[0] < 0xDC00 <= units[1] < 0xE000
    ensures |units| == 2 ==>
      0x1_0000 + (units[0] - 0xD800) * 0x400 + (units[1] - 0xDC00) == c as int
  {
    var v := c as int;
    if v < 0x1_0000 then [v]
    else [0xD800 + (v - 0x1_0000) / 0x400, 0xDC00 + (v - 0x1_0000) % 0x400]
  }

  /** The code units of a string. */
  function Utf16(s: string): (units: seq<int>)
    ensures |units| >= |s|
    ensures forall i :: 0 <= i < |units| ==> 0 <= units[i] < 0x1_0000
    decreases |s|
  {
    if |s| == 0 then [] else CodeUnits(s[0]) + Utf16(s[1..])
  }

  /** A string of Basic Multilingual Plane characters has one code unit per
      character, equal to the character. */
  lemma {:induction false} Utf16Bmp(s: string)
    requires forall i :: 0 <= i < |s| ==> (s[i] as int) < 0x1_0000
    ensures |Utf16(s)| == |s|
    ensures forall i :: 0 <= i < |s| ==> Utf16(s)[i] == s[i] as int
    decreases |s|
  {
    if |s| > 0 {
      Utf16Bmp(s[1..]);
    }
  }

  lemma {:induction false} Utf16Append(a: string, b: string)
    ensures Utf16(a + b) == Utf16(a) + Utf16(b)
    decreases |a|
  {
    if |a| == 0 {
      assert a + b == b;
    } else {
      assert (a + b)[1..] == a[1..] + b;
      Utf16Append(a[1..], b);
    }
  }

  /** One code unit in little-endian memory order: low byte, then high byte. */
  function UnitPair(u: int): (pair: seq<byte>)
    requires 0 <= u < 0x1_0000
    ensures |pair| == 2
    ensures pair[0] as int + 256 * pair[1] as int == u
  {
    [(u % 256) as byte, (u / 256) as byte]
  }

  /** `MemoryMarshal.AsBytes` on a little-endian machine: the code units'
      byte pairs one after the other. */
  function UnitBytes(units: seq<int>): (bytes: seq<byte>)
    requires forall i :: 0 <= i < |units| ==> 0 <= units[i] < 0x1_0000
    ensures |bytes| == 2 * |units|
    decreases |units|
  {
    if |units| == 0 then [] else UnitPair(units[0]) + UnitBytes(units[1..])
  }

  /** Reading bytes `2i` and `2i + 1` back as a little-endian pair gives code unit `i`. */
  lemma {:induction false} UnitBytesRead(units: seq<int>, i: nat)
    requires forall k :: 0 <= k < |units| ==> 0 <= units[k] < 0x1_0000
    requires i < |units|
    ensures UnitBytes(units)[2 * i] as int + 256 * UnitBytes(units)[2 * i + 1] as int == units[i]
    decreases i
  {
    var rest := UnitBytes(units[1..]);
    assert UnitBytes(units) == UnitPair(units[0]) + rest;
    if i > 0 {
      UnitBytesRead(units[1..], i - 1);
      assert UnitBytes(units)[2 * i] == rest[2 * (i - 1)];
      assert UnitBytes(units)[2 * i + 1] == rest[2 * (i - 1) + 1];
    }
  }

  lemma {:induction false} UnitBytesAppend(a: seq<int>, b: seq<int>)
    requires forall i :: 0 <= i < |a| ==> 0 <= a[i] < 0x1_0000
    requires forall i :: 0 <= i < |b| ==> 0 <= b[i] < 0x1_0000
    ensures UnitBytes(a + b) == UnitBytes(a) + UnitBytes(b)
    decreases |a|
  {
    if |a| == 0 {
      assert a + b == b;
    } else {
      assert (a + b)[1..] == a[1..] + b;
      UnitBytesAppend(a[1..], b);
    }
  }

  /** The bytes of a string's UTF-16 code units in memory order. */
  function Utf16Bytes(s: string): seq<byte>
  {
    UnitBytes(Utf16(s))
  }

  lemma Utf16BytesAppend(a: string, b: string)
    ensures Utf16Bytes(a + b) == Utf16Bytes(a) + Utf16Bytes(b)
  {
    Utf16Append(a, b);
    UnitBytesAppend(Utf16(a), Utf16(b));
  }

  /** `Encoding.ASCII`: characters below 128 are their own byte, every other
      scalar value becomes the replacement '?' (0x3F). */
  function AsciiChar(c: char): (b: byte)
    ensures (c as int) < 128 ==> b as int == c as int
    ensures (c as int) >= 128 ==> b == 0x3F
  {
    if (c as int) < 128 then (c as int) as byte else 0x3F
  }

  function Ascii(s: string): (bytes: seq<byte>)
    ensures |bytes| == |s|
    ensures forall i :: 0 <= i < |s| ==> bytes[i] == AsciiChar(s[i])
  {
    seq(|s|, i requires 0 <= i < |s| => AsciiChar(s[i]))
  }

  /** The UTF-8 encoding of one scalar value (section 3.9 of the Unicode
      Standard, table 3-6). */
  function Utf8Char(c: char): (bytes: seq<byte>)
    ensures 1 <= |bytes| <= 4
    ensures |bytes| == 1 <==> (c as int) < 0x80
    ensures |bytes| == 1 ==> bytes[0] as int == c as int
    ensures |bytes| > 1 ==> bytes[0] >= 0xC0
    ensures forall i :: 1 <= i < |bytes| ==> 0x80 <= bytes[i] < 0xC0
  {
    var v := c as int;
    if v < 0x80 then [v as byte]
    else if v < 0x800 then [(0xC0 + v / 0x40) as byte, (0x80 + v % 0x40) as byte]
    else if v < 0x1_0000 then
      [(0xE0 + v / 0x1000) as byte, (0x80 + (v / 0x40) % 0x40) as byte, (0x80 + v % 0x40) as byte]
    else
      [(0xF0 + v / 0x4_0000) as byte, (0x80 + (v / 0x1000) % 0x40) as byte,
       (0x80 + (v / 0x40) % 0x40) as byte, (0x80 + v % 0x40) as byte]
  }

  /** `Encoding.UTF8` without a byte order mark, as a `StreamWriter` writes. */
  function Utf8(s: string): (bytes: seq<byte>)
    ensures |bytes| >= |s|
    decreases |s|
  {
    if |s| == 0 then [] else Utf8Char(s[0]) + Utf8(s[1..])
  }

  lemma {:induction false} Utf8Append(a: string, b: string)
    ensures Utf8(a + b) == Utf8(a) + Utf8(b)
    decreases |a|
  {
    if |a| == 0 {
      assert a + b == b;
    } else {
      assert (a + b)[1..] == a[1..] + b;
      Utf8Append(a[1..], b);
    }
  }

  predicate IsAsciiString(s: string) {
    forall i :: 0 <= i < |s| ==> (s[i] as int) < 128
  }

  /** On ASCII text the two encodings agree byte for byte. */
  lemma {:induction false} Utf8OfAscii(s: string)
    requires IsAsciiString(s)
    ensures Utf8(s) == Ascii(s)
    decreases |s|
  {
    if |s| > 0 {
      Utf8OfAscii(s[1..]);
      assert Ascii(s) == [AsciiChar(s[0])] + Ascii(s[1..]);
    }
  }

  /** The same octets as `bv8` values, the form the checksum register takes. */
  function Octets(bytes: seq<byte>): (r: seq<bv8>)
    ensures |r| == |bytes|
  {
    seq(|bytes|, i requires 0 <= i < |bytes| => bytes[i] as bv8)
  }

  lemma OctetsAppend(a: seq<byte>, b: seq<byte>)
    ensures Octets(a + b) == Octets(a) + Octets(b)
  {
  }
}
