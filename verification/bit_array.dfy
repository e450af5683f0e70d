/** The growable bit vector backing a shape tree's encoding.

    `sizeof(byte)` is 1, so bit `i` is stored in bit 0 of byte `i` and the
    backing array holds exactly one byte per bit.  The other seven bits of
    each byte are carried along untouched, as in the C# code.
 */
module BitArrays {
  import opened Wrappers

  /** `sizeof(byte)`, the number of bits the code packs into one byte. */
  const ByteSize: nat := 1

  datatype BitArray = BitArray(data: seq<bv8>, length: int) {

    /** The byte array always has exactly `length` bytes. */
    predicate Valid() {
      |data| == length
    }

    /** The bits the array stands for: bit 0 of every byte. */
    function Bits(): (bits: seq<bool>)
      requires Valid()
      ensures |bits| == length
    {
      seq(length, i requires 0 <= i < length => data[i] & 1 != 0)
    }

    /** `Count`, the `ICollection<bool>` size. */
    function Count(): int {
      length
    }
  }

  /** `new BitArray()`: no bytes, no bits. */
  function Empty(): (a: BitArray)
    ensures a.Valid() && a.Bits() == []
  {
    BitArray([], 0)
  }

  /** The `Data` init accessor: adopts the byte array and its length. */
  function WithData(bytes: seq<bv8>): (a: BitArray)
    ensures a.Valid() && a.Count() == |bytes|
    ensures forall i :: 0 <= i < |bytes| ==> a.Bits()[i] == (bytes[i] & 1 == 1)
  {
    BitArray(bytes, |bytes|)
  }

  /** The indexer getter. */
  function Get(a: BitArray, index: int): (r: Result<bool>)
    requires a.Valid()
    ensures r.Ok? <==> 0 <= index < a.length
    ensures r.Err? ==> r.error == IndexOutOfRange
    ensures r.Ok? ==> r.value == a.Bits()[index]
  {
    if index >= a.length || index < 0 then Err(IndexOutOfRange)
    else
      var bitIdx := index % ByteSize;
      var blockIdx := index / ByteSize;
      Ok(a.data[blockIdx] & (1 << bitIdx) != 0)
  }

  /** The indexer setter: sets or clears one bit and leaves every other bit alone. */
  function Set(a: BitArray, index: int, value: bool): (r: Result<BitArray>)
    requires a.Valid()
    ensures r.Ok? <==> 0 <= index < a.length
    ensures r.Err? ==> r.error == IndexOutOfRange
    ensures r.Ok? ==> r.value.Valid() && r.value.length == a.length
    ensures r.Ok? ==> r.value.Bits() == a.Bits()[index := value]
    ensures r.Ok? ==> forall i :: 0 <= i < a.length ==> r.value.data[i] >> 1 == a.data[i] >> 1
  {
    if index >= a.length || index < 0 then Err(IndexOutOfRange)
    else
      var bitIdx := index % ByteSize;
      var blockIdx := index / ByteSize;
      var b := a.data[blockIdx];
      var b' := if value then b | (1 << bitIdx) else b & !(1 << bitIdx);
      Ok(a.(data := a.data[blockIdx := b']))
  }

  /** `Array.Resize`: keeps the first bytes, pads with zero bytes. */
  function Resize(data: seq<bv8>, n: nat): (r: seq<bv8>)
    ensures |r| == n
    ensures forall i :: 0 <= i < n ==> r[i] == if i < |data| then data[i] else 0
  {
    if n <= |data| then data[..n] else data + seq(n - |data|, _ => 0)
  }

  /** The `Length` setter.  A negative length makes `Array.Resize` throw. */
  function SetLength(a: BitArray, n: int): (r: Result<BitArray>)
    requires a.Valid()
    ensures r.Ok? <==> n >= 0
    ensures r.Err? ==> r.error == ArgumentOutOfRange
    ensures r.Ok? ==> r.value.Valid() && r.value.length == n
    ensures r.Ok? ==> forall i :: 0 <= i < n && i < a.length ==> r.value.Bits()[i] == a.Bits()[i]
    ensures r.Ok? ==> forall i :: a.length <= i < n ==> !r.value.Bits()[i]
  {
    var size := (n + ByteSize - 1) / ByteSize;
    if |a.data| != size then
      if size < 0 then Err(ArgumentOutOfRange)
      else Ok(BitArray(Resize(a.data, size), n))
    else Ok(a.(length := n))
  }

  /** `Clear`: the length drops to zero. */
  function Clear(a: BitArray): (r: BitArray)
    requires a.Valid()
    ensures r.Valid() && r.Count() == 0 && r.Bits() == []
  {
    SetLength(a, 0).value
  }

  /** `Clone`: a copy with the same length and the same bits. */
  function Clone(a: BitArray): (r: BitArray)
    requires a.Valid()
    ensures r.Valid() && r.Count() == a.Count() && r.Bits() == a.Bits()
  {
    WithData(a.data).(length := a.length)
  }

  /** The list constructor: one zero byte per element, then every bit set in order. */
  method FromList(list: seq<bool>) returns (a: BitArray)
    ensures a.Valid() && a.Count() == |list|
    ensures a.Bits() == list
  {
    a := WithData(seq((|list| + ByteSize - 1) / ByteSize, _ => 0));
    a := a.(length := |list|);
    var i := 0;
    while i < a.length
      invariant 0 <= i <= |list| && a.Valid() && a.length == |list|
      invariant a.Bits()[..i] == list[..i]
    {
      a := Set(a, i, list[i]).value;
      i := i + 1;
    }
  }

  /** Growing the length by one and then writing the new last bit (what
      `TreeBuilder.TryAdd` does) appends that bit to the encoding. */
  lemma GrowThenSetLastAppends(a: BitArray, value: bool)
    requires a.Valid()
    ensures SetLength(a, a.length + 1).Ok?
    ensures Set(SetLength(a, a.length + 1).value, a.length, value).Ok?
    ensures Set(SetLength(a, a.length + 1).value, a.length, value).value.Bits() == a.Bits() + [value]
  {
    var grown := SetLength(a, a.length + 1).value;
    var written := Set(grown, a.length, value).value;
    assert written.Bits() == grown.Bits()[a.length := value];
    assert grown.Bits()[..a.length] == a.Bits();
  }

  /** The bit array whose bytes are exactly 0 or 1, as built bit by bit from zero bytes. */
  function FromBits(bits: seq<bool>): (a: BitArray)
    ensures a.Valid() && a.Bits() == bits
  {
    BitArray(seq(|bits|, i requires 0 <= i < |bits| => if bits[i] then 1 else 0), |bits|)
  }
}
