/** `StringExt`, the checksum of the Common library.  It runs the same CRC-32
    register as `CryptoHashCode`, over ASCII or UTF-8 bytes, applies the final
    complement (so the register is the standard CRC-32 of IEEE 802.3), and
    returns the four bytes of that value in reverse order read back as a
    signed 32-bit integer. */
module StringExt {
  import opened Bytes
  import opened Crc32
  import opened Encodings
  import opened Text
  import opened Numerics

  function Pow256(n: nat): (p: nat)
    ensures p >= 1
  {
    if n == 0 then 1 else 256 * Pow256(n - 1)
  }

  /** The `n` little-endian bytes of an unsigned value below 256^n. */
  function LeBytes(u: int, n: nat): (bs: seq<byte>)
    requires 0 <= u < Pow256(n)
    ensures |bs| == n
  {
    if n == 0 then [] else [(u % 256) as byte] + LeBytes(u / 256, n - 1)
  }

  /** The unsigned value of little-endian bytes. */
  function LeValue(bs: seq<byte>): (u: nat)
    ensures u < Pow256(|bs|)
  {
    if |bs| == 0 then 0 else bs[0] as int + 256 * LeValue(bs[1..])
  }

  lemma {:induction false} LeValueOfBytes(u: int, n: nat)
    requires 0 <= u < Pow256(n)
    ensures LeValue(LeBytes(u, n)) == u
  {
    if n > 0 {
      LeValueOfBytes(u / 256, n - 1);
      assert LeBytes(u, n)[1..] == LeBytes(u / 256, n - 1);
    }
  }

  lemma {:induction false} LeBytesOfValue(bs: seq<byte>)
    ensures LeBytes(LeValue(bs), |bs|) == bs
  {
    if |bs| > 0 {
      LeBytesOfValue(bs[1..]);
      var u := LeValue(bs);
      assert u % 256 == bs[0] as int;
      assert u / 256 == LeValue(bs[1..]);
    }
  }

  /** The four little-endian bytes of an unsigned 32-bit value. */
  function LeWord(u: int): (bs: seq<byte>)
    requires 0 <= u < TwoTo32
    ensures |bs| == 4
  {
    assert Pow256(4) == TwoTo32;
    LeBytes(u, 4)
  }

  /** The four bytes of a word, digit by digit. */
  lemma LeWordDigits(u: int)
    requires 0 <= u < TwoTo32
    ensures LeWord(u) == [(u % 256) as byte, (u / 0x100 % 256) as byte, (u / 0x1_0000 % 256) as byte, (u / 0x100_0000) as byte]
  {
    assert Pow256(4) == TwoTo32;
    var u1 := u / 256;
    var u2 := u1 / 256;
    var u3 := u2 / 256;
    assert u2 == u / 0x1_0000;
    assert u3 == u / 0x100_0000;
    assert LeBytes(u3, 1) == [(u3 % 256) as byte] + LeBytes(u3 / 256, 0);
    assert LeBytes(u, 4) == [(u % 256) as byte] + LeBytes(u1, 3);
    assert LeBytes(u1, 3) == [(u1 % 256) as byte] + LeBytes(u2, 2);
    assert LeBytes(u2, 2) == [(u2 % 256) as byte] + LeBytes(u3, 1);
  }

  /** The value of four bytes, digit by digit. */
  lemma LeValueDigits(bs: seq<byte>)
    requires |bs| == 4
    ensures LeValue(bs) == bs[0] as int + 0x100 * bs[1] as int + 0x1_0000 * bs[2] as int + 0x100_0000 * bs[3] as int
  {
    assert bs[1..][1..] == bs[2..];
    assert bs[2..][1..] == bs[3..];
    assert bs[3..][1..] == [];
    assert LeValue(bs[3..]) == bs[3] as int + 256 * LeValue([]);
    assert LeValue(bs[2..]) == bs[2] as int + 256 * LeValue(bs[3..]);
    assert LeValue(bs[1..]) == bs[1] as int + 256 * LeValue(bs[2..]);
  }

  /** `BitConverter.GetBytes(uint)` on a little-endian machine. */
  function UintBytes(x: bv32): (bs: seq<byte>)
    ensures |bs| == 4
  {
    LeWord(x as int)
  }

  /** `BitConverter.ToInt32`: the bytes as a little-endian two's-complement
      integer. */
  function ToInt32(bs: seq<byte>): (r: int)
    requires |bs| == 4
    ensures IsInt32(r)
  {
    assert Pow256(4) == TwoTo32;
    var u := LeValue(bs);
    if u >= TwoTo31 then u - TwoTo32 else u
  }

  /** `BitConverter.GetBytes(int)`: the inverse of `ToInt32`. */
  function Int32Bytes(r: int): (bs: seq<byte>)
    requires IsInt32(r)
    ensures |bs| == 4
  {
    LeWord(if r < 0 then r + TwoTo32 else r)
  }

  lemma Int32BytesOfToInt32(bs: seq<byte>)
    requires |bs| == 4
    ensures Int32Bytes(ToInt32(bs)) == bs
  {
    LeBytesOfValue(bs);
  }

  /** The sign of the integer is the top bit of the last byte. */
  lemma ToInt32Sign(bs: seq<byte>)
    requires |bs| == 4
    ensures ToInt32(bs) < 0 <==> bs[3] >= 0x80
  {
    LeValueDigits(bs);
  }

  lemma ToInt32OfInt32Bytes(r: int)
    requires IsInt32(r)
    ensures ToInt32(Int32Bytes(r)) == r
  {
    assert Pow256(4) == TwoTo32;
    LeValueOfBytes(if r < 0 then r + TwoTo32 else r, 4);
  }

  /** `Array.Reverse`. */
  function Reverse(bs: seq<byte>): (r: seq<byte>)
    ensures |r| == |bs|
    ensures forall i :: 0 <= i < |bs| ==> r[i] == bs[|bs| - 1 - i]
  {
    seq(|bs|, i requires 0 <= i < |bs| => bs[|bs| - 1 - i])
  }

  lemma ReverseReverse(bs: seq<byte>)
    ensures Reverse(Reverse(bs)) == bs
  {
  }

  /** The end of the stream checksum: complement the register, take its
      bytes, reverse them, and read them back as an `int`. */
  function Finish(register: bv32): (r: int)
    ensures IsInt32(r)
  {
    ToInt32(Reverse(UintBytes(!register)))
  }

  /** `GetCryptoHashCode(Stream)` over the bytes the stream yields
      (the `byte[]` overload reads a stream over the array itself). */
  function StreamHash(data: seq<byte>): int
  {
    Finish(Crc(0xFFFF_FFFF, Octets(data)))
  }

  /** The stream loop: read each byte, update the register with the masked
      index, then finish. */
  method StreamChecksum(data: seq<byte>) returns (hash: int)
    ensures hash == StreamHash(data)
    ensures Int32Bytes(hash) == Reverse(UintBytes(StandardCrc32(Octets(data))))
  {
    var register := StreamCrc(0xFFFF_FFFF, Octets(data));
    hash := Finish(register);
    StreamHashIsStandard(data);
  }

  /** The returned integer is a signed 32-bit value whose own bytes are the
      bytes of the standard CRC-32, reversed; it is negative exactly when the
      low byte of the standard CRC-32 has its top bit set. */
  lemma StreamHashIsStandard(data: seq<byte>)
    ensures IsInt32(StreamHash(data))
    ensures Int32Bytes(StreamHash(data)) == Reverse(UintBytes(StandardCrc32(Octets(data))))
    ensures StreamHash(data) < 0 <==> UintBytes(StandardCrc32(Octets(data)))[0] >= 0x80
  {
    Int32BytesOfToInt32(Reverse(UintBytes(StandardCrc32(Octets(data)))));
    ToInt32Sign(Reverse(UintBytes(StandardCrc32(Octets(data)))));
  }

  /** `GetCryptoHashCode(string)`: the ASCII bytes of the string. */
  function HashString(input: string): int
  {
    StreamHash(Ascii(input))
  }

  /** What one `StreamWriter` writes for the strings in order: UTF-8 without
      a byte order mark. */
  function WrittenBytes(ss: seq<string>): seq<byte>
    decreases |ss|
  {
    if |ss| == 0 then [] else Utf8(ss[0]) + WrittenBytes(ss[1..])
  }

  /** `GetCryptoHashCode(IEnumerable<string>)`. */
  function HashSeq(ss: seq<string>): int
  {
    StreamHash(WrittenBytes(ss))
  }

  /** Writing the strings one by one writes the bytes of their concatenation. */
  lemma {:induction false} WrittenBytesConcat(ss: seq<string>)
    ensures WrittenBytes(ss) == Utf8(ConcatAll(ss))
    decreases |ss|
  {
    if |ss| > 0 {
      WrittenBytesConcat(ss[1..]);
      Utf8Append(ss[0], ConcatAll(ss[1..]));
    }
  }

  /** On ASCII text the sequence overload hashes the concatenation the way the
      string overload does. */
  lemma HashSeqOfAscii(ss: seq<string>)
    requires IsAsciiString(ConcatAll(ss))
    ensures HashSeq(ss) == HashString(ConcatAll(ss))
  {
    WrittenBytesConcat(ss);
    Utf8OfAscii(ConcatAll(ss));
  }

  /** The string overload replaces every character outside ASCII by '?'. */
  function Replaced(s: string): (r: string)
    ensures |r| == |s|
    ensures IsAsciiString(r)
  {
    seq(|s|, i requires 0 <= i < |s| => if (s[i] as int) < 128 then s[i] else '?')
  }

  lemma HashStringReplaces(s: string)
    ensures HashString(s) == HashString(Replaced(s))
  {
    assert Ascii(s) == Ascii(Replaced(s));
  }

  /** The single letter "b" hashes to a negative number: its standard CRC-32
      is 0x71BEEFF9, whose low byte 0xF9 becomes the top byte. */
  lemma HashOfB()
    ensures StandardCrc32([0x62]) == 0x71BE_EFF9
    ensures HashString("b") == -101728655
  {
    assert Ascii("b") == [0x62 as byte];
    assert Octets([0x62 as byte]) == [0x62];
    assert Crc(0xFFFF_FFFF, [0x62]) == 0x8E41_1006;
    LeWordDigits(0x71BE_EFF9);
    assert UintBytes(!0x8E41_1006) == [0xF9, 0xEF, 0xBE, 0x71];
    LeValueDigits([0x71, 0xBE, 0xEF, 0xF9]);
  }
}
