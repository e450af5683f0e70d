/** Incremental construction of a shape-tree encoding under a depth bound. */
module TreeBuilder {
  import opened Dyck

  /** The builder's state: the encoding so far, the per-depth descent counts,
      the current depth, and the depth bound (-1 by default: no bound). */
  datatype Builder = Builder(encoding: seq<bool>, shape: map<int, int>, depth: int, maxDepth: int) {

    /** What every reachable builder satisfies: the depth is the running depth
        of the encoding, the encoding never dips below depth 0 nor above the
        bound, and the dictionary counts the descents of the encoding. */
    predicate Valid() {
      && depth >= 0
      && depth == Height(encoding)
      && NonNeg(encoding)
      && (maxDepth >= 0 ==> Peak(encoding) <= maxDepth)
      && shape == ShapeMap(encoding)
    }

    /** Each node costs one descent and one return. */
    function TotalNbTasks(): int {
      |encoding| / 2
    }

    /** The shape dictionary's values ordered by depth: exactly one entry per
        depth 1 .. deepest depth reached, each the number of descents to that
        depth, summing to the number of descents. */
    function Shape(): (r: seq<int>)
      requires Valid()
      ensures |r| == Peak(encoding)
      ensures forall i :: 0 <= i < |r| ==> (i + 1) in shape && r[i] == shape[i + 1] && r[i] >= 1
      ensures Sum(r) == Ones(encoding)
    {
      var n := |encoding|;
      ShapeMapKeysContiguous(encoding);
      ShapeMapValuesPositive(encoding);
      PeakBounded(encoding);
      SortedValuesDropLow(shape, -n, 1, n + 1);
      SortedValuesDropHigh(shape, 1, Peak(encoding) + 1, n + 1);
      SortedValuesFull(shape, 1, Peak(encoding) + 1);
      SumShapeMapIsOnes(encoding, -n, n + 1);
      SortedValues(shape, -n, n + 1)
    }
  }

  /** `new TreeBuilder(maxDepth)`. */
  function New(maxDepth: int): (b: Builder)
    ensures b.Valid() && b.encoding == [] && b.depth == 0 && b.maxDepth == maxDepth
  {
    Builder([], map[], 0, maxDepth)
  }

  /** `TryAdd(a)`: a return at depth 0 and a descent at the depth bound are
      refused and change nothing; any other bit is appended, moving the depth
      by one and counting a descent at the depth it reaches. */
  function TryAdd(b: Builder, a: bool): (r: (bool, Builder))
    requires b.Valid()
    ensures r.0 <==> !(b.depth == 0 && !a) && !(b.depth == b.maxDepth && a)
    ensures !r.0 ==> r.1 == b
    ensures r.0 ==> r.1.encoding == b.encoding + [a] && r.1.maxDepth == b.maxDepth
    ensures r.0 ==> r.1.depth == b.depth + (if a then 1 else -1)
    ensures r.1.Valid()
  {
    if b.depth == 0 && !a then (false, b)
    else if b.depth == b.maxDepth && a then (false, b)
    else
      AdvanceValid(b, a);
      (true, Advance(b, a))
  }

  /** The accepted branch of `TryAdd`: `++Depth` and `shape[Depth]++` on a
      descent, `--Depth` on a return, then the bit is appended. */
  function Advance(b: Builder, a: bool): Builder
  {
    var depth := if a then b.depth + 1 else b.depth - 1;
    var shape := if a then b.shape[depth := (if depth in b.shape then b.shape[depth] else 0) + 1] else b.shape;
    Builder(b.encoding + [a], shape, depth, b.maxDepth)
  }

  lemma AdvanceValid(b: Builder, a: bool)
    requires b.Valid()
    requires !(b.depth == 0 && !a) && !(b.depth == b.maxDepth && a)
    ensures Advance(b, a).Valid()
  {
    var s := b.encoding + [a];
    assert s[..|b.encoding|] == b.encoding;
    assert s[|s| - 1] == a;
    assert Height(s) == b.depth + (if a then 1 else -1);
    NonNegSnoc(b.encoding, a);
    assert ShapeMap(s) == Advance(b, a).shape;
    assert b.maxDepth >= 0 ==> Peak(s) <= b.maxDepth;
  }

  /** `Build()`: closes every open level, giving a Dyck word; the shape is
      untouched and the node count is the number of descents. */
  function Build(b: Builder): (r: Builder)
    requires b.Valid()
    ensures r.Valid() && r.depth == 0 && r.maxDepth == b.maxDepth
    ensures r.encoding == b.encoding + Falses(b.depth)
    ensures Balanced(r.encoding)
    ensures r.shape == b.shape
    ensures Ones(r.encoding) == Ones(b.encoding)
    ensures r.TotalNbTasks() == Ones(r.encoding)
    decreases b.depth
  {
    NonNegHeight(b.encoding);
    if b.depth > 0 then
      var step := TryAdd(b, false).1;
      var r := Build(step);
      assert r.encoding == b.encoding + Falses(b.depth) by {
        assert [false] + Falses(b.depth - 1) == Falses(b.depth);
      }
      ShapeMapSnocFalse(b.encoding);
      assert (b.encoding + [false])[..|b.encoding|] == b.encoding;
      HeightCounts(r.encoding);
      r
    else
      HeightCounts(b.encoding);
      assert b.encoding + Falses(0) == b.encoding;
      b
  }
}
