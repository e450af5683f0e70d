/** Building the decomposition tree of a run from random bits.

    The builder is fed random bits, bounded by the configuration's number of
    levels, until it holds enough nodes; it is then closed and wrapped under
    one root node.  The random generator seeded with the configuration's
    seed is not modelled: its bytes come in as a finite stream, and running
    out of them before the target is met gives `None` (the C# loop would
    keep drawing, and need not stop on an adversarial stream). */
module RunConfigurationExt {
  import opened Wrappers
  import opened Dyck
  import TB = TreeBuilder
  import TreeExt
  import BitArrays
  import RunConfiguration

  /** The bits of one random byte in the order the loop tests them: bit
      `j` is `(x & (1 << j)) != 0`, least significant first. */
  function ByteBits(x: bv8): (r: seq<bool>)
    ensures |r| == 8 && forall j :: 0 <= j < 8 ==> r[j] == Bit(x, j)
  {
    [Bit(x, 0), Bit(x, 1), Bit(x, 2), Bit(x, 3), Bit(x, 4), Bit(x, 5), Bit(x, 6), Bit(x, 7)]
  }

  /** `(x & (1 << j)) != 0`. */
  function Bit(x: bv8, j: nat): bool
    requires j < 8
  {
    x & (1 << j) != 0
  }

  /** The bits of a byte stream, byte after byte.  The C# loop draws the
      stream 100 bytes at a time, but it rechecks its stop condition before
      every bit, so the chunking does not change which bits are read. */
  function StreamBits(bytes: seq<bv8>): (r: seq<bool>)
    ensures |r| == 8 * |bytes|
  {
    if |bytes| == 0 then [] else ByteBits(bytes[0]) + StreamBits(bytes[1..])
  }

  /** The loop's stop condition: `TotalNbTasks + Depth / 2` has reached the
      target. */
  predicate Enough(b: TB.Builder, n: int)
  {
    b.TotalNbTasks() + b.depth / 2 >= n
  }

  /** The feeding loop: each bit is offered to `TryAdd` as long as the stop
      condition fails; `None` when the bits run out first. */
  function Feed(b: TB.Builder, bits: seq<bool>, n: int): (r: Option<TB.Builder>)
    requires b.Valid()
    ensures Enough(b, n) ==> r == Some(b)
    ensures r.Some? ==> r.value.Valid() && r.value.maxDepth == b.maxDepth && Enough(r.value, n)
    ensures r.Some? ==> b.encoding <= r.value.encoding
    ensures r.Some? ==> |r.value.encoding| <= |b.encoding| + |bits|
    decreases |bits|
  {
    if Enough(b, n) then Some(b)
    else if |bits| == 0 then None
    else Feed(TB.TryAdd(b, bits[0]).1, bits[1..], n)
  }

  /** A built tree and the `shape` out-parameter. */
  datatype Built = Built(tree: TreeExt.Tree, shape: seq<int>)

  /** `subtree.Encoding.Length += 2`, the shift loop and the two end bits:
      the encoding moves one place up and gains a descent in front and a
      return at the end. */
  method WrapRoot(a: BitArrays.BitArray) returns (r: BitArrays.BitArray)
    requires a.Valid()
    ensures r.Valid() && r.Bits() == [true] + a.Bits() + [false]
  {
    var len := a.length;
    var e := a.Bits();
    r := BitArrays.SetLength(a, len + 2).value;
    var i := len;
    while i >= 1
      invariant 0 <= i <= len
      invariant r.Valid() && r.length == len + 2
      invariant forall j :: 0 <= j < i ==> r.Bits()[j] == e[j]
      invariant forall j :: i < j <= len ==> r.Bits()[j] == e[j - 1]
    {
      r := BitArrays.Set(r, i, r.Bits()[i - 1]).value;
      i := i - 1;
    }
    r := BitArrays.Set(r, 0, true).value;
    r := BitArrays.Set(r, len + 1, false).value;
    assert r.Bits() == [true] + e + [false];
  }

  /** `BuildTree`: feed the builder bounded by the number of levels until it
      holds enough nodes, record its shape, close it and wrap it under a
      root.  The tree is the built Dyck word under one root pair, its depth
      is at most one more than the number of levels, it has more nodes than
      the target, `GetSubTrees` accepts it and yields the top-level blocks,
      and its shape is the recorded shape under one root. */
  method BuildTree(c: RunConfiguration.Config, stream: seq<bv8>) returns (r: Option<Built>)
    requires c.Valid()
    ensures r.None? <==> Feed(TB.New(c.subTasksLevels), StreamBits(stream), c.totalNbSubTasks).None?
    ensures r.Some? ==>
              var fed := Feed(TB.New(c.subTasksLevels), StreamBits(stream), c.totalNbSubTasks).value;
              && r.value.tree.bits == [true] + TB.Build(fed).encoding + [false]
              && r.value.shape == fed.Shape()
    ensures r.Some? ==> TreeExt.GetShape(r.value.tree) == [1] + r.value.shape
    ensures r.Some? ==> |TreeExt.GetShape(r.value.tree)| <= c.subTasksLevels + 1
    ensures r.Some? ==> Ones(r.value.tree.bits) >= c.totalNbSubTasks + 1
    ensures r.Some? ==> RootedTree(r.value.tree)
  {
    var fed := Feed(TB.New(c.subTasksLevels), StreamBits(stream), c.totalNbSubTasks);
    if fed.None? {
      return None;
    }
    var b := fed.value;
    var shape := b.Shape();
    var built := TB.Build(b);
    var bits := WrapRoot(BitArrays.FromBits(built.encoding));
    var tree := TreeExt.Tree(bits.Bits());
    SameShape(b, built);
    RootedShape(built);
    EnoughNodes(b, c.totalNbSubTasks);
    OnesAppend([true], built.encoding);
    OnesAppend([true] + built.encoding, [false]);
    assert Ones([true]) == 1 by { assert [true][..0] == []; }
    assert Ones([false]) == 0 by { assert [false][..0] == []; }
    RootedSubTrees(built.encoding);
    r := Some(Built(tree, shape));
  }

  /** What `GetSubTrees` makes of a tree under one root: it is accepted, the
      yielded blocks rebuild it, and there are as many of them as descents to
      depth 2. */
  predicate RootedTree(t: TreeExt.Tree)
  {
    && TreeExt.GetSubTrees(t).Ok?
    && t.bits == [true] + Concat(TreeExt.Encodings(TreeExt.GetSubTrees(t).value)) + [false]
    && |TreeExt.GetSubTrees(t).value| == Raises(t.bits, 2)
  }

  // ---------------------------------------------------------------------
  // Properties

  /** Two valid builders with the same dictionary have the same ordered shape. */
  lemma SameShape(b1: TB.Builder, b2: TB.Builder)
    requires b1.Valid() && b2.Valid() && b1.shape == b2.shape
    ensures b1.Shape() == b2.Shape()
  {
    var p1 := Peak(b1.encoding);
    var p2 := Peak(b2.encoding);
    ShapeMapKeysContiguous(b1.encoding);
    ShapeMapKeysContiguous(b2.encoding);
    if p1 > 0 { assert p1 in b2.shape; }
    if p2 > 0 { assert p2 in b1.shape; }
  }

  /** The shape of a closed builder's word under one root: one node at
      depth 1, then the builder's shape one level down. */
  lemma RootedShape(b: TB.Builder)
    requires b.Valid() && b.depth == 0
    ensures TreeExt.GetShape(TreeExt.Tree([true] + b.encoding + [false])) == [1] + b.Shape()
    ensures Peak([true] + b.encoding + [false]) == Peak(b.encoding) + 1
  {
    var e := b.encoding;
    var y := [true] + e;
    var x := y + [false];
    assert Balanced(e);
    TreeExt.WrappedNonNeg(e);
    assert x[..|y|] == y;
    NonNegPrefix(x, |y|);
    PeakSnocFalse(y);
    ShapeMapSnocFalse(y);
    ShapeMapUnderRoot(e);
    ShapeMapKeysContiguous(y);
    ShapeMapKeysContiguous(e);
    var pe := Peak(e);
    var py := Peak(y);
    assert py >= 1;
    assert py in ShapeMap(y);
    if pe >= 1 {
      assert pe in ShapeMap(e);
    }
    assert py == pe + 1;
    var r := TreeExt.GetShape(TreeExt.Tree(x));
    var s := b.Shape();
    assert |r| == |[1] + s|;
    forall k | 0 <= k < |r|
      ensures r[k] == ([1] + s)[k]
    {
      ShapeMapCounts(x, k + 1);
      if k > 0 {
        assert k in ShapeMap(e);
      }
    }
  }

  /** A builder that met the stop condition holds at least the target
      number of nodes once closed. */
  lemma EnoughNodes(b: TB.Builder, n: int)
    requires b.Valid() && Enough(b, n)
    ensures TB.Build(b).TotalNbTasks() >= n
    ensures Ones(TB.Build(b).encoding) >= n
  {
    HeightCounts(b.encoding);
  }

  /** A Dyck word under one root pair is accepted by `GetSubTrees`, whose
      blocks rebuild it, one per descent to depth 2. */
  lemma RootedSubTrees(e: seq<bool>)
    requires Balanced(e)
    ensures RootedTree(TreeExt.Tree([true] + e + [false]))
  {
    var t := TreeExt.Tree([true] + e + [false]);
    assert t.bits[1..|t.bits| - 1] == e;
    TreeExt.GetSubTreesLanguage(t);
    var bs := TreeExt.Encodings(TreeExt.GetSubTrees(t).value);
    ConcatBalanced(bs);
    HeightAppend(Concat(bs), [true]);
    assert Height([true]) == 1 by { assert [true][..0] == []; }
    assert t.bits == [true] + Concat(bs) + [true, false] ==> e == Concat(bs) + [true];
    TreeExt.SubTreeCount(t);
  }

  /** The compute request `BuildRequest` returns: an id and a tree. */
  datatype TreeRequest = TreeRequest(id: string, tree: TreeExt.Tree)

  /** `BuildRequest`: without levels the root is a single node `10` with
      shape `[1]`; otherwise the root carries the built tree and its shape. */
  method BuildRequest(c: RunConfiguration.Config, stream: seq<bv8>) returns (r: Option<(TreeRequest, seq<int>)>)
    requires c.Valid()
    ensures c.subTasksLevels == 0 ==> r == Some((TreeRequest("root", TreeExt.Tree([true, false])), [1]))
    ensures c.subTasksLevels != 0 ==> (r.Some? <==> Feed(TB.New(c.subTasksLevels), StreamBits(stream), c.totalNbSubTasks).Some?)
    ensures r.Some? ==> r.value.0.id == "root" && RootedTree(r.value.0.tree)
    ensures r.Some? ==> TreeExt.GetShape(r.value.0.tree) == [1] + (if c.subTasksLevels == 0 then [] else r.value.1)
  {
    if c.subTasksLevels == 0 {
      var single := BitArrays.FromBits([true, false]);
      RootedSubTrees([]);
      assert [true] + [] + [false] == [true, false];
      RootedShape(TB.New(0));
      assert TB.New(0).Shape() == [];
      r := Some((TreeRequest("root", TreeExt.Tree(single.Bits())), [1]));
    } else {
      var built := BuildTree(c, stream);
      if built.None? {
        return None;
      }
      r := Some((TreeRequest("root", built.value.tree), built.value.shape));
    }
  }
}
