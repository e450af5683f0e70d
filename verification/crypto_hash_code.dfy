/** `CryptoHashCode`, the checksum the Core uses for request ids and for
    aggregated results.  It runs the CRC-32 register over the UTF-16 code
    units of a string, two bytes per unit with the low byte first.  It starts
    from all ones and, unlike standard CRC-32, returns the register without
    the final complement. */
module CryptoHashCode {
  import opened Bytes
  import opened Crc32
  import opened Encodings
  import opened Text

  /** `uint.MaxValue`, the starting register of both overloads. */
  const Start: bv32 := 0xFFFF_FFFF

  /** The octets of a string as `MemoryMarshal.AsBytes` lays them out. */
  function StringOctets(s: string): seq<bv8>
  {
    Octets(Utf16Bytes(s))
  }

  /** `GetCryptoHashCodeInternals(input, hash)`: absorbs the octets of
      `input` into register `hash`. */
  function Internals(input: string, hash: bv32): bv32
  {
    Crc(hash, StringOctets(input))
  }

  /** `GetCryptoHashCode(string)`. */
  function HashString(input: string): bv32
  {
    Internals(input, Start)
  }

  /** `Aggregate(hash, (current, s) => GetCryptoHashCodeInternals(s, current))`. */
  function HashFold(hash: bv32, ss: seq<string>): bv32
    decreases |ss|
  {
    if |ss| == 0 then hash else HashFold(Internals(ss[0], hash), ss[1..])
  }

  /** `GetCryptoHashCode(IEnumerable<string>)`. */
  function HashSeq(ss: seq<string>): bv32
  {
    HashFold(Start, ss)
  }

  /** The checksum of a string as the unsigned number C# sees. */
  function HashValue(input: string): (h: nat)
    ensures h < 0x1_0000_0000
  {
    HashString(input) as int
  }

  /** The checksum of a sequence of strings as an unsigned number. */
  function SeqHashValue(ss: seq<string>): (h: nat)
    ensures h < 0x1_0000_0000
  {
    HashSeq(ss) as int
  }

  lemma StringOctetsAppend(a: string, b: string)
    ensures StringOctets(a + b) == StringOctets(a) + StringOctets(b)
  {
    Utf16BytesAppend(a, b);
    OctetsAppend(Utf16Bytes(a), Utf16Bytes(b));
  }

  /** Hashing `a + b` from `h` is hashing `b` from where `a` left the register. */
  lemma InternalsAppend(a: string, b: string, h: bv32)
    ensures Internals(a + b, h) == Internals(b, Internals(a, h))
  {
    StringOctetsAppend(a, b);
    CrcAppend(h, StringOctets(a), StringOctets(b));
  }

  /** The sequence overload threads the register, so hashing the strings one
      after the other is hashing their concatenation. */
  lemma {:induction false} HashFoldConcat(h: bv32, ss: seq<string>)
    ensures HashFold(h, ss) == Internals(ConcatAll(ss), h)
    decreases |ss|
  {
    if |ss| == 0 {
      assert StringOctets("") == [];
    } else {
      HashFoldConcat(Internals(ss[0], h), ss[1..]);
      InternalsAppend(ss[0], ConcatAll(ss[1..]), h);
    }
  }

  lemma HashSeqIsConcat(ss: seq<string>)
    ensures HashSeq(ss) == HashString(ConcatAll(ss))
  {
    HashFoldConcat(Start, ss);
  }

  /** Nothing to absorb leaves the starting register. */
  lemma EmptyHashes()
    ensures HashString("") == 0xFFFF_FFFF
    ensures HashSeq([]) == 0xFFFF_FFFF
    ensures HashSeq([""]) == 0xFFFF_FFFF
  {
    assert StringOctets("") == [];
  }

  /** The checksum is the standard CRC-32 of the UTF-16 octets without its
      final complement. */
  lemma NoFinalComplement(s: string)
    ensures HashString(s) == !StandardCrc32(StringOctets(s))
  {
  }

  /** Octets `2i` and `2i + 1` are the low and high byte of character `i`
      when the text stays in the Basic Multilingual Plane. */
  lemma StringBytesLayout(s: string, i: nat)
    requires forall k :: 0 <= k < |s| ==> (s[k] as int) < 0x1_0000
    requires i < |s|
    ensures |Utf16Bytes(s)| == 2 * |s|
    ensures Utf16Bytes(s)[2 * i] as int + 256 * Utf16Bytes(s)[2 * i + 1] as int == s[i] as int
  {
    Utf16Bmp(s);
    UnitBytesRead(Utf16(s), i);
  }
}
