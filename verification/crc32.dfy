/** The reflected CRC-32 with polynomial 0xEDB88320 (the frame check
    sequence of IEEE 802.3, section 3.2.9): the bit-at-a-time register that
    fills the lookup table, and the byte-at-a-time table update that both
    checksum classes run over their input. */
module Crc32 {

  const Polynomial: bv32 := 0xEDB88320

  /** One bit of the reflected shift register: shift right, and fold the
      polynomial back in when a 1 falls out. */
  function Step(x: bv32): bv32
  {
    if x & 1 != 0 then Polynomial ^ (x >> 1) else x >> 1
  }

  /** `n` register steps. */
  function Rounds(x: bv32, n: nat): bv32
    decreases n
  {
    if n == 0 then x else Rounds(Step(x), n - 1)
  }

  lemma RoundsUnfold(x: bv32, n: nat)
    requires n > 0
    ensures Rounds(x, n) == Rounds(Step(x), n - 1)
  {
  }

  /** The eight steps that absorb one byte, written out. */
  lemma RoundsEight(x: bv32)
    ensures Rounds(x, 8) == Step(Step(Step(Step(Step(Step(Step(Step(x))))))))
  {
    var x1 := Step(x);
    var x2 := Step(x1);
    var x3 := Step(x2);
    var x4 := Step(x3);
    var x5 := Step(x4);
    var x6 := Step(x5);
    var x7 := Step(x6);
    assert Rounds(x7, 1) == Step(x7);
    assert Rounds(x6, 2) == Rounds(x7, 1);
    assert Rounds(x5, 3) == Rounds(x6, 2);
    assert Rounds(x4, 4) == Rounds(x5, 3);
    assert Rounds(x3, 5) == Rounds(x4, 4);
    assert Rounds(x2, 6) == Rounds(x3, 5);
    assert Rounds(x1, 7) == Rounds(x2, 6);
    assert Rounds(x, 8) == Rounds(x1, 7);
  }

  lemma ShiftXor(x: bv32, y: bv32)
    ensures (x ^ y) >> 1 == (x >> 1) ^ (y >> 1)
  {
  }

  lemma LowXor(x: bv32, y: bv32)
    ensures ((x ^ y) & 1 != 0) == ((x & 1 != 0) != (y & 1 != 0))
  {
  }

  lemma XorCancel(p: bv32, a: bv32, b: bv32)
    ensures (p ^ a) ^ (p ^ b) == a ^ b
  {
  }

  lemma XorLeft(p: bv32, a: bv32, b: bv32)
    ensures (p ^ a) ^ b == p ^ (a ^ b)
  {
  }

  lemma XorRight(p: bv32, a: bv32, b: bv32)
    ensures a ^ (p ^ b) == p ^ (a ^ b)
  {
  }

  /** The two branches of `Step`. */
  lemma StepOdd(x: bv32)
    requires x & 1 != 0
    ensures Step(x) == Polynomial ^ (x >> 1)
  {
  }

  lemma StepEvenBit(x: bv32)
    requires x & 1 == 0
    ensures Step(x) == x >> 1
  {
  }

  /** Linearity of one step, one case of the two low bits at a time. */
  lemma Case11(x: bv32, y: bv32)
    requires x & 1 != 0 && y & 1 != 0
    ensures Step(x ^ y) == Step(x) ^ Step(y)
  {
    ShiftXor(x, y);
    LowXor(x, y);
    StepOdd(x);
    StepOdd(y);
    StepEvenBit(x ^ y);
    XorCancel(Polynomial, x >> 1, y >> 1);
  }

  lemma Case10(x: bv32, y: bv32)
    requires x & 1 != 0 && y & 1 == 0
    ensures Step(x ^ y) == Step(x) ^ Step(y)
  {
    ShiftXor(x, y);
    LowXor(x, y);
    StepOdd(x);
    StepEvenBit(y);
    StepOdd(x ^ y);
    XorLeft(Polynomial, x >> 1, y >> 1);
  }

  lemma Case00(x: bv32, y: bv32)
    requires x & 1 == 0 && y & 1 == 0
    ensures Step(x ^ y) == Step(x) ^ Step(y)
  {
    ShiftXor(x, y);
    LowXor(x, y);
    StepEvenBit(x);
    StepEvenBit(y);
    StepEvenBit(x ^ y);
  }

  lemma Case01(x: bv32, y: bv32)
    requires x & 1 == 0 && y & 1 != 0
    ensures Step(x ^ y) == Step(x) ^ Step(y)
  {
    ShiftXor(x, y);
    LowXor(x, y);
    StepEvenBit(x);
    StepOdd(y);
    StepOdd(x ^ y);
    XorRight(Polynomial, x >> 1, y >> 1);
  }

  /** The register is linear over GF(2): stepping a xor is the xor of the steps. */
  lemma StepLinear(x: bv32, y: bv32)
    ensures Step(x ^ y) == Step(x) ^ Step(y)
  {
    if x & 1 != 0 {
      if y & 1 != 0 {
        Case11(x, y);
      } else {
        Case10(x, y);
      }
    } else {
      if y & 1 != 0 {
        Case01(x, y);
      } else {
        Case00(x, y);
      }
    }
  }

  /** A zero low bit only shifts. */
  lemma StepEven(y: bv32, m: bv32)
    requires y & m == 0 && m & 1 == 1
    ensures Step(y) == y >> 1
    ensures (y >> 1) & (m >> 1) == 0
  {
  }

  lemma ShiftEight(y: bv32)
    ensures ((((((((y >> 1) >> 1) >> 1) >> 1) >> 1) >> 1) >> 1) >> 1) == y >> 8
  {
  }

  /** With a zero low byte no 1 ever falls out: eight steps are a plain shift. */
  lemma HighPart(y: bv32)
    requires y & 0xFF == 0
    ensures Rounds(y, 8) == y >> 8
  {
    RoundsEight(y);
    StepEven(y, 0xFF);
    var y1 := y >> 1;
    StepEven(y1, 0x7F);
    var y2 := y1 >> 1;
    StepEven(y2, 0x3F);
    var y3 := y2 >> 1;
    StepEven(y3, 0x1F);
    var y4 := y3 >> 1;
    StepEven(y4, 0xF);
    var y5 := y4 >> 1;
    StepEven(y5, 0x7);
    var y6 := y5 >> 1;
    StepEven(y6, 0x3);
    var y7 := y6 >> 1;
    StepEven(y7, 0x1);
    ShiftEight(y);
  }

  /** Entry `k` of the lookup table: the register after eight steps from `k`. */
  function Entry(k: bv8): bv32
  {
    Rounds(k as bv32, 8)
  }

  /** Entry `i` of the table, for an integer position `i`. */
  function EntryAt(i: int): bv32
    requires 0 <= i < 256
  {
    Entry(i as bv8)
  }

  /** The 256-entry lookup table. */
  function ChecksumTable(): (t: seq<bv32>)
    ensures |t| == 256
  {
    seq(256, i requires 0 <= i < 256 => EntryAt(i))
  }

  lemma TableAt(k: bv8)
    ensures ChecksumTable()[k as int] == Entry(k)
  {
  }

  /** The inner loop of the table construction: eight shift-and-fold steps
      from `index`. */
  method ComputeEntry(index: bv8) returns (item: bv32)
    ensures item == Entry(index)
  {
    var start := index as bv32;
    item := start;
    var bit := 0;
    while bit < 8
      invariant 0 <= bit <= 8
      invariant Rounds(item, 8 - bit) == Rounds(start, 8)
    {
      RoundsUnfold(item, 8 - bit);
      var next := if item & 1 != 0 then Polynomial ^ (item >> 1) else item >> 1;
      assert next == Step(item);
      item := next;
      bit := bit + 1;
    }
  }

  /** The static constructor's outer loop fills exactly the lookup table. */
  method BuildTable() returns (table: seq<bv32>)
    ensures table == ChecksumTable()
  {
    table := [];
    var index := 0;
    while index < 0x100
      invariant index <= 0x100
      invariant |table| == index
      invariant forall i :: 0 <= i < |table| ==> table[i] == EntryAt(i)
    {
      var item := ComputeEntry(index as bv8);
      assert item == EntryAt(index);
      table := table + [item];
      index := index + 1;
    }
  }

  /** Entry 0 is zero: a zero register stays zero. */
  lemma TableZero()
    ensures ChecksumTable()[0] == 0
  {
    TableAt(0);
    HighPart(0);
  }

  /** The low byte of a register, the part `& 0xFF` keeps. */
  function LowByte(z: bv32): bv8
  {
    (z & 0xFF) as bv8
  }

  /** Absorbing byte `b` into register `h`, the update of `CryptoHashCode`:
      `Table[(h ^ b) & 0xFF] ^ (h >> 8)`, with entry `k` of the table being
      `Entry(k)` (see `BuildTable`). */
  function Absorb(h: bv32, b: bv8): bv32
  {
    Entry(LowByte(h ^ (b as bv32))) ^ (h >> 8)
  }

  /** `n` applications of `f`. */
  function Iter<T(!new)>(f: T -> T, x: T, n: nat): T
    decreases n
  {
    if n == 0 then x else Iter(f, f(x), n - 1)
  }

  /** `f` distributes over `op`. */
  ghost predicate Additive<T(!new)>(f: T -> T, op: (T, T) -> T)
  {
    forall a, b :: f(op(a, b)) == op(f(a), f(b))
  }

  /** Iterating a map that distributes over `op` distributes over `op`. */
  lemma {:induction false} IterAdditive<T(!new)>(f: T -> T, op: (T, T) -> T, x: T, y: T, n: nat)
    requires Additive(f, op)
    ensures Iter(f, op(x, y), n) == op(Iter(f, x, n), Iter(f, y, n))
    decreases n
  {
    if n > 0 {
      IterAdditive(f, op, f(x), f(y), n - 1);
    }
  }

  function Xor(a: bv32, b: bv32): bv32
  {
    a ^ b
  }

  lemma StepAdditive()
    ensures Additive(Step, Xor)
  {
    forall a, b
      ensures Step(Xor(a, b)) == Xor(Step(a), Step(b))
    {
      StepLinear(a, b);
    }
  }

  lemma {:induction false} RoundsIter(x: bv32, n: nat)
    ensures Rounds(x, n) == Iter(Step, x, n)
    decreases n
  {
    if n > 0 {
      RoundsIter(Step(x), n - 1);
    }
  }

  /** Register steps are linear over GF(2). */
  lemma RoundsLinear(x: bv32, y: bv32, n: nat)
    ensures Rounds(x ^ y, n) == Rounds(x, n) ^ Rounds(y, n)
  {
    RoundsIter(x ^ y, n);
    RoundsIter(x, n);
    RoundsIter(y, n);
    StepAdditive();
    IterAdditive(Step, Xor, x, y, n);
  }

  /** A register is its low byte xor the rest. */
  lemma SplitLow(x: bv32)
    ensures x == (x & 0xFF) ^ (x & 0xFFFF_FF00)
    ensures (x & 0xFFFF_FF00) & 0xFF == 0
  {
  }

  lemma LowByteWidens(z: bv32)
    ensures LowByte(z) as bv32 == z & 0xFF
  {
  }

  /** The table update is eight register steps on the register xored with
      the byte: the low byte goes through the table, the rest only shifts. */
  lemma AbsorbIsRounds(h: bv32, b: bv8)
    ensures Absorb(h, b) == Rounds(h ^ (b as bv32), 8)
  {
    var x := h ^ (b as bv32);
    ShiftOfXor(h, b, x);
    AbsorbAt(h, b, x, h >> 8, 8);
  }

  /** A byte xored into the register leaves the bits above the low byte alone. */
  lemma ShiftOfXor(h: bv32, b: bv8, x: bv32)
    requires x == h ^ (b as bv32)
    ensures x >> 8 == h >> 8
  {
  }

  /** `AbsorbIsRounds` with the register, its shift and the step count named. */
  lemma AbsorbAt(h: bv32, b: bv8, x: bv32, t: bv32, n: nat)
    requires n == 8 && x == h ^ (b as bv32) && t == x >> 8 && t == h >> 8
    ensures Absorb(h, b) == Rounds(x, n)
  {
    SplitRoundsAt(x, t, n);
    AbsorbOfSplit(h, b, x, n);
  }

  /** Eight steps of `x` are eight steps of its low byte xored with `x >> 8`. */
  lemma SplitRoundsAt(x: bv32, t: bv32, n: nat)
    requires n == 8 && t == x >> 8
    ensures Rounds(x, n) == Rounds(x & 0xFF, n) ^ t
  {
    var high := x & 0xFFFF_FF00;
    HighBits(x, high);
    SplitHigh(x, high, t, n);
  }

  /** The part of `x` above the low byte. */
  lemma HighBits(x: bv32, high: bv32)
    requires high == x & 0xFFFF_FF00
    ensures high & 0xFF == 0 && x >> 8 == high >> 8
  {
  }

  /** `SplitRoundsAt` once the high part is named. */
  lemma SplitHigh(x: bv32, high: bv32, t: bv32, n: nat)
    requires n == 8 && high == x & 0xFFFF_FF00 && high & 0xFF == 0 && t == high >> 8
    ensures Rounds(x, n) == Rounds(x & 0xFF, n) ^ t
  {
    HighShift(high, t, n);
    SplitRounds(x, high, t, n);
  }

  /** The table update agrees with eight steps whenever the steps split as
      `SplitRoundsAt` says. */
  lemma AbsorbOfSplit(h: bv32, b: bv8, x: bv32, n: nat)
    requires n == 8 && x == h ^ (b as bv32)
    requires Rounds(x, n) == Rounds(x & 0xFF, n) ^ (h >> 8)
    ensures Absorb(h, b) == Rounds(x, n)
  {
    AbsorbLow(h, b, x, n);
  }

  /** The table update reads the entry of the low byte of `h ^ b`. */
  lemma AbsorbLow(h: bv32, b: bv8, x: bv32, n: nat)
    requires n == 8 && x == h ^ (b as bv32)
    ensures Absorb(h, b) == Rounds(x & 0xFF, n) ^ (h >> 8)
  {
    LowByteWidens(x);
  }

  /** With a zero low byte, eight steps shift by eight. */
  lemma HighShift(y: bv32, t: bv32, n: nat)
    requires n == 8 && y & 0xFF == 0 && t == y >> 8
    ensures Rounds(y, n) == t
  {
    HighPart(y);
  }

  /** `n` steps on a register are `n` steps on its low byte xor `n` steps
      on the rest. */
  lemma SplitRounds(x: bv32, high: bv32, s: bv32, n: nat)
    requires high == x & 0xFFFF_FF00 && Rounds(high, n) == s
    ensures Rounds(x, n) == Rounds(x & 0xFF, n) ^ s
  {
    SplitLow(x);
    Recombine(x, x & 0xFF, high, s, n);
  }

  /** `n` steps on `low ^ high`, knowing where `n` steps take `high`. */
  lemma Recombine(x: bv32, low: bv32, high: bv32, s: bv32, n: nat)
    requires x == low ^ high && Rounds(high, n) == s
    ensures Rounds(x, n) == Rounds(low, n) ^ s
  {
    RoundsLinear(low, high, n);
  }

  /** Masking before or after the xor selects the same entry. */
  lemma StreamIndex(h: bv32, b: bv8)
    ensures LowByte((h & 0xFF) ^ (b as bv32)) == LowByte(h ^ (b as bv32))
  {
  }

  /** The update of `StringExt`, which masks before xoring:
      `Table[(r & 0xFF) ^ b] ^ (r >> 8)`. */
  function StreamUpdate(h: bv32, b: bv8): bv32
  {
    Entry(LowByte((h & 0xFF) ^ (b as bv32))) ^ (h >> 8)
  }

  /** Both index forms compute the same update. */
  lemma StreamUpdateAbsorbs(h: bv32, b: bv8)
    ensures StreamUpdate(h, b) == Absorb(h, b)
  {
    StreamIndex(h, b);
  }

  /** The CRC register after absorbing `bytes` from state `h`. */
  function Crc(h: bv32, bytes: seq<bv8>): bv32
    decreases |bytes|
  {
    if |bytes| == 0 then h else Crc(Absorb(h, bytes[0]), bytes[1..])
  }

  /** Streaming threads the state: hashing `a + b` is hashing `b` after `a`. */
  lemma {:induction false} CrcAppend(h: bv32, a: seq<bv8>, b: seq<bv8>)
    ensures Crc(h, a + b) == Crc(Crc(h, a), b)
    decreases |a|
  {
    if |a| == 0 {
      assert a + b == b;
    } else {
      assert (a + b)[1..] == a[1..] + b;
      CrcAppend(Absorb(h, a[0]), a[1..], b);
    }
  }

  lemma CrcCons(h: bv32, b: bv8, rest: seq<bv8>)
    ensures Crc(h, [b] + rest) == Crc(Absorb(h, b), rest)
  {
    assert ([b] + rest)[1..] == rest;
  }

  /** The table-driven loop, as `CryptoHashCode` writes it, computes the
      CRC register. */
  method TableCrc(h: bv32, bytes: seq<bv8>) returns (r: bv32)
    ensures r == Crc(h, bytes)
  {
    r := h;
    var index := 0;
    while index < |bytes|
      invariant 0 <= index <= |bytes|
      invariant Crc(h, bytes) == Crc(r, bytes[index..])
    {
      assert bytes[index..][1..] == bytes[index + 1..];
      r := Absorb(r, bytes[index]);
      index := index + 1;
    }
  }

  /** The stream loop, as `StringExt` writes it, computes the same register. */
  method StreamCrc(h: bv32, bytes: seq<bv8>) returns (r: bv32)
    ensures r == Crc(h, bytes)
  {
    r := h;
    var index := 0;
    while index < |bytes|
      invariant 0 <= index <= |bytes|
      invariant Crc(h, bytes) == Crc(r, bytes[index..])
    {
      assert bytes[index..][1..] == bytes[index + 1..];
      StreamUpdateAbsorbs(r, bytes[index]);
      r := StreamUpdate(r, bytes[index]);
      index := index + 1;
    }
  }

  /** The standard CRC-32 of IEEE 802.3: start from all ones, complement at the end. */
  function StandardCrc32(bytes: seq<bv8>): bv32
  {
    !Crc(0xFFFF_FFFF, bytes)
  }

  /** The published check value of CRC-32: the ASCII digits "123456789"
      hash to 0xCBF43926. */
  lemma StandardCheckValue()
    ensures StandardCrc32([0x31, 0x32, 0x33, 0x34, 0x35, 0x36, 0x37, 0x38, 0x39]) == 0xCBF43926
  {
    var first: seq<bv8> := [0x31, 0x32, 0x33];
    var second: seq<bv8> := [0x34, 0x35, 0x36];
    var third: seq<bv8> := [0x37, 0x38, 0x39];
    assert first + second + third == [0x31, 0x32, 0x33, 0x34, 0x35, 0x36, 0x37, 0x38, 0x39];
    CheckDigits123();
    CheckDigits456();
    CheckDigits789();
    CrcAppend(0xFFFF_FFFF, first, second);
    CrcAppend(0xFFFF_FFFF, first + second, third);
  }

  /** The register after "123", one table step per digit. */
  lemma CheckDigits123()
    ensures Crc(0xFFFF_FFFF, [0x31, 0x32, 0x33]) == 0x77B7_9C2D
  {
    CrcCons(0xFFFF_FFFF, 0x31, [0x32, 0x33]);
    assert Absorb(0xFFFF_FFFF, 0x31) == 0x7C23_1048;
    CrcCons(0x7C23_1048, 0x32, [0x33]);
    assert Absorb(0x7C23_1048, 0x32) == 0xB0AC_BB32;
    CrcCons(0xB0AC_BB32, 0x33, []);
    assert Absorb(0xB0AC_BB32, 0x33) == 0x77B7_9C2D;
  }

  /** The register after "456", continuing from "123". */
  lemma CheckDigits456()
    ensures Crc(0x77B7_9C2D, [0x34, 0x35, 0x36]) == 0xF68D_2C9E
  {
    CrcCons(0x77B7_9C2D, 0x34, [0x35, 0x36]);
    assert Absorb(0x77B7_9C2D, 0x34) == 0x641C_1F5C;
    CrcCons(0x641C_1F5C, 0x35, [0x36]);
    assert Absorb(0x641C_1F5C, 0x35) == 0x340A_C5E3;
    CrcCons(0x340A_C5E3, 0x36, []);
    assert Absorb(0x340A_C5E3, 0x36) == 0xF68D_2C9E;
  }

  /** The register after "789", continuing from "123456". */
  lemma CheckDigits789()
    ensures Crc(0xF68D_2C9E, [0x37, 0x38, 0x39]) == 0x340B_C6D9
  {
    CrcCons(0xF68D_2C9E, 0x37, [0x38, 0x39]);
    assert Absorb(0xF68D_2C9E, 0x37) == 0xAFFC_9660;
    CrcCons(0xAFFC_9660, 0x38, [0x39]);
    assert Absorb(0xAFFC_9660, 0x38) == 0x651F_2550;
    CrcCons(0x651F_2550, 0x39, []);
    assert Absorb(0x651F_2550, 0x39) == 0x340B_C6D9;
  }
}
