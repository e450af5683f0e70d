/** Reading a shape tree: its per-depth shape and its top-level subtrees. */
module TreeExt {
  import opened Wrappers
  import opened Dyck
  import opened Text
  import TB = TreeBuilder

  /** A decomposition tree, stored as its bracket encoding. */
  datatype Tree = Tree(bits: seq<bool>)

  const MsgEnds := "Tree coding must start with a 1 and finish with a 0"
  const MsgNotWellFormed := "The Tree is not well formed"
  const MsgSeveralRoots := "The Tree is not well formed; tree already contains several root trees"
  const MsgRemainder := "The Tree is not well formed; tree contains a remainder piece of tree at the end"

  /** `GetShape`: the descent counts per depth, ordered by depth.  The entries
      always add up to the number of nodes; on an encoding that never dips
      below the root, entry `k` counts the descents reaching depth `k + 1` and
      there is one entry per depth up to the deepest one. */
  function GetShape(t: Tree): (r: seq<int>)
    ensures Sum(r) == Ones(t.bits)
    ensures NonNeg(t.bits) ==> |r| == Peak(t.bits)
    ensures NonNeg(t.bits) ==> forall k :: 0 <= k < |r| ==> r[k] == Raises(t.bits, k + 1) && r[k] >= 1
  {
    var n := |t.bits|;
    SumShapeMapIsOnes(t.bits, -n, n + 1);
    if NonNeg(t.bits) then
      ShapeEntries(t.bits);
      ShapeOf(t.bits)
    else
      ShapeOf(t.bits)
  }

  /** The ordered values of the shape dictionary; the range covers every key. */
  function ShapeOf(s: seq<bool>): seq<int>
  {
    SortedValues(ShapeMap(s), -|s|, |s| + 1)
  }

  lemma ShapeEntries(s: seq<bool>)
    requires NonNeg(s)
    ensures |ShapeOf(s)| == Peak(s)
    ensures forall k :: 0 <= k < |ShapeOf(s)| ==> ShapeOf(s)[k] == Raises(s, k + 1) && ShapeOf(s)[k] >= 1
  {
    var m := ShapeMap(s);
    var n := |s|;
    var top := Peak(s);
    ShapeMapKeysContiguous(s);
    ShapeMapValuesPositive(s);
    PeakBounded(s);
    SortedValuesDropLow(m, -n, 1, n + 1);
    SortedValuesDropHigh(m, 1, top + 1, n + 1);
    SortedValuesFull(m, 1, top + 1);
    var r := SortedValues(m, 1, top + 1);
    forall k | 0 <= k < top
      ensures r[k] == Raises(s, k + 1) && r[k] >= 1
    {
      assert r[k] == m[1 + k];
      ShapeMapCounts(s, k + 1);
    }
  }

  /** Decimal renderings of the shape entries. */
  function Render(xs: seq<int>): (r: seq<string>)
    ensures |r| == |xs|
    ensures forall i :: 0 <= i < |xs| ==> r[i] == IntToString(xs[i])
  {
    seq(|xs|, i requires 0 <= i < |xs| => IntToString(xs[i]))
  }

  /** `GetShapeString`: the shape entries joined by ".".  Since a decimal
      rendering holds no ".", splitting the string at "." gives the entries back. */
  function GetShapeString(t: Tree): (r: string)
    ensures |GetShape(t)| == 0 ==> r == ""
    ensures |GetShape(t)| > 0 ==> Split('.', r) == Render(GetShape(t))
  {
    var parts := Render(GetShape(t));
    if |parts| > 0 then
      assert forall i :: 0 <= i < |parts| ==> Free('.', parts[i]) by {
        forall i | 0 <= i < |parts|
          ensures Free('.', parts[i])
        {
          assert forall k :: 0 <= k < |parts[i]| ==> parts[i][k] == '-' || IsDigit(parts[i][k]);
        }
      }
      SplitJoin('.', parts);
      Join(".", parts)
    else
      Join(".", parts)
  }

  // ---------------------------------------------------------------------
  // Top-level subtrees

  /** The interior words the loop accepts: a Dyck word, optionally followed
      by one unmatched descent when `strict` is off (a lone descent keeps
      `TotalNbTasks` at 0 and so escapes the remainder check). */
  predicate Acceptable(x: seq<bool>, strict: bool)
  {
    || Balanced(x)
    || (!strict && |x| > 0 && x[|x| - 1] && Balanced(x[..|x| - 1]))
  }

  /** The whole encodings accepted: a descent, an acceptable interior, a return. */
  predicate Accepted(e: seq<bool>, strict: bool)
  {
    |e| >= 2 && e[0] && !e[|e| - 1] && Acceptable(e[1..|e| - 1], strict)
  }

  predicate AllPrimitive(bs: seq<seq<bool>>)
  {
    forall i :: 0 <= i < |bs| ==> Primitive(bs[i])
  }

  function Trees(bs: seq<seq<bool>>): (ts: seq<Tree>)
    ensures |ts| == |bs| && forall i :: 0 <= i < |bs| ==> ts[i].bits == bs[i]
  {
    seq(|bs|, i requires 0 <= i < |bs| => Tree(bs[i]))
  }

  function Encodings(ts: seq<Tree>): (bs: seq<seq<bool>>)
    ensures |bs| == |ts| && forall i :: 0 <= i < |ts| ==> bs[i] == ts[i].bits
  {
    seq(|ts|, i requires 0 <= i < |ts| => ts[i].bits)
  }

  /** Whether the builder left over after the interior counts as a remainder:
      the code asks `TotalNbTasks > 0`; the strict reading asks for any bit. */
  predicate Remainder(b: TB.Builder, strict: bool)
  {
    if strict then |b.encoding| > 0 else b.TotalNbTasks() > 0
  }

  /** The loop of `GetSubTrees` over the interior bits `w`, with builder `b`
      holding the part of the current subtree read so far.  Each time the
      builder is back at depth 0 a subtree is emitted and a fresh builder
      started. */
  function Walk(w: seq<bool>, b: TB.Builder, strict: bool): Result<seq<seq<bool>>>
    requires b.Valid() && b.maxDepth == -1
    decreases |w|
  {
    if |w| == 0 then
      if Remainder(b, strict) then Err(Argument(MsgRemainder)) else Ok([])
    else
      var step := TB.TryAdd(b, w[0]);
      if !step.0 then Err(Argument(MsgNotWellFormed))
      else if step.1.depth == 0 then
        var tree := TB.Build(step.1).encoding;
        if |w| > 1 && !w[1] then Err(Argument(MsgSeveralRoots))
        else
          var rest :- Walk(w[1..], TB.New(-1), strict);
          Ok([tree] + rest)
      else Walk(w[1..], step.1, strict)
  }

  function SubTrees(t: Tree, strict: bool): (r: Result<seq<Tree>>)
    ensures |t.bits| == 0 ==> r == Err(IndexOutOfRange)
    ensures |t.bits| > 0 && (!t.bits[0] || t.bits[|t.bits| - 1]) ==> r == Err(Argument(MsgEnds))
    ensures r.Err? ==> r.error == IndexOutOfRange || r.error.Argument?
    ensures r.Ok? ==> AllPrimitive(Encodings(r.value))
    ensures r.Ok? ==> || t.bits == [true] + Concat(Encodings(r.value)) + [false]
                      || (!strict && t.bits == [true] + Concat(Encodings(r.value)) + [true, false])
  {
    var e := t.bits;
    if |e| == 0 then Err(IndexOutOfRange)
    else if !e[0] || e[|e| - 1] then Err(Argument(MsgEnds))
    else if |e| > 2 then
      var w := e[1..|e| - 1];
      WalkFromRoot(w, strict);
      var walked := Walk(w, TB.New(-1), strict);
      if walked.Err? then Err(walked.error)
      else
        Rewrap(e, walked.value, strict);
        Ok(Trees(walked.value))
    else
      assert e == [true] + Concat([]) + [false];
      Ok([])
  }

  /** `GetSubTrees` as written: the subtrees under the root, in order.  The
      ensures clauses give the error cases, and say that on success every
      subtree is one complete block and the blocks, wrapped in the root pair,
      rebuild the input, up to one trailing lone descent. */
  function GetSubTrees(t: Tree): (r: Result<seq<Tree>>)
    ensures |t.bits| == 0 ==> r == Err(IndexOutOfRange)
    ensures |t.bits| > 0 && (!t.bits[0] || t.bits[|t.bits| - 1]) ==> r == Err(Argument(MsgEnds))
    ensures r.Err? ==> r.error == IndexOutOfRange || r.error.Argument?
    ensures r.Ok? ==> AllPrimitive(Encodings(r.value))
    ensures r.Ok? ==> || t.bits == [true] + Concat(Encodings(r.value)) + [false]
                      || t.bits == [true] + Concat(Encodings(r.value)) + [true, false]
  {
    SubTrees(t, false)
  }

  /** `GetSubTrees` with the remainder check rejecting any leftover bit. */
  function GetSubTreesStrict(t: Tree): (r: Result<seq<Tree>>)
    ensures |t.bits| == 0 ==> r == Err(IndexOutOfRange)
    ensures |t.bits| > 0 && (!t.bits[0] || t.bits[|t.bits| - 1]) ==> r == Err(Argument(MsgEnds))
    ensures r.Err? ==> r.error == IndexOutOfRange || r.error.Argument?
    ensures r.Ok? ==> AllPrimitive(Encodings(r.value))
    ensures r.Ok? ==> t.bits == [true] + Concat(Encodings(r.value)) + [false]
  {
    SubTrees(t, true)
  }

  // ---------------------------------------------------------------------
  // Walk lemmas

  /** What `SubTrees` needs from the loop started with a fresh builder. */
  lemma WalkFromRoot(w: seq<bool>, strict: bool)
    ensures Walk(w, TB.New(-1), strict).Err? ==> Walk(w, TB.New(-1), strict).error.Argument?
    ensures Walk(w, TB.New(-1), strict).Ok? ==>
              && AllPrimitive(Walk(w, TB.New(-1), strict).value)
              && (|| w == Concat(Walk(w, TB.New(-1), strict).value)
                  || (!strict && w == Concat(Walk(w, TB.New(-1), strict).value) + [true]))
  {
    WalkErrors(w, TB.New(-1), strict);
    var walked := Walk(w, TB.New(-1), strict);
    if walked.Ok? {
      WalkSound(w, TB.New(-1), strict, walked.value);
      assert [] + w == w;
    }
  }

  lemma Rewrap(e: seq<bool>, bs: seq<seq<bool>>, strict: bool)
    requires |e| > 2 && e[0] && !e[|e| - 1]
    requires AllPrimitive(bs)
    requires e[1..|e| - 1] == Concat(bs) || (!strict && e[1..|e| - 1] == Concat(bs) + [true])
    ensures AllPrimitive(Encodings(Trees(bs)))
    ensures || e == [true] + Concat(Encodings(Trees(bs))) + [false]
            || (!strict && e == [true] + Concat(Encodings(Trees(bs))) + [true, false])
  {
    assert Encodings(Trees(bs)) == bs;
    assert e == [true] + e[1..|e| - 1] + [false];
    assert [true] + (Concat(bs) + [true]) + [false] == [true] + Concat(bs) + [true, false];
  }

  /** One step of the loop that leaves the builder inside the current subtree. */
  lemma WalkDescend(w: seq<bool>, b: TB.Builder, strict: bool)
    requires b.Valid() && b.maxDepth == -1 && |w| > 0
    requires TB.TryAdd(b, w[0]).0 && TB.TryAdd(b, w[0]).1.depth > 0
    ensures Walk(w, b, strict) == Walk(w[1..], TB.TryAdd(b, w[0]).1, strict)
  {
  }

  /** One step of the loop that completes the current subtree. */
  lemma WalkClose(w: seq<bool>, b: TB.Builder, strict: bool)
    requires b.Valid() && b.maxDepth == -1 && |w| > 0
    requires TB.TryAdd(b, w[0]).0 && TB.TryAdd(b, w[0]).1.depth == 0
    requires |w| == 1 || w[1]
    requires Walk(w[1..], TB.New(-1), strict).Ok?
    ensures Walk(w, b, strict) == Ok([b.encoding + [w[0]]] + Walk(w[1..], TB.New(-1), strict).value)
  {
    var step := TB.TryAdd(b, w[0]);
    assert TB.Build(step.1).encoding == b.encoding + [w[0]] by {
      assert step.1.encoding + Falses(0) == step.1.encoding;
    }
  }

  lemma {:induction false} WalkErrors(w: seq<bool>, b: TB.Builder, strict: bool)
    requires b.Valid() && b.maxDepth == -1
    ensures Walk(w, b, strict).Err? ==> Walk(w, b, strict).error.Argument?
    decreases |w|
  {
    if |w| > 0 {
      var step := TB.TryAdd(b, w[0]);
      if step.0 {
        if step.1.depth == 0 {
          WalkErrors(w[1..], TB.New(-1), strict);
        } else {
          WalkErrors(w[1..], step.1, strict);
        }
      }
    }
  }

  /** Soundness of the loop: what it emits are complete blocks which,
      after the part already in the builder, spell out the input, up to one
      trailing lone descent when not strict. */
  lemma {:induction false} WalkSound(w: seq<bool>, b: TB.Builder, strict: bool, bs: seq<seq<bool>>)
    requires b.Valid() && b.maxDepth == -1 && Positive(b.encoding)
    requires Walk(w, b, strict) == Ok(bs)
    ensures AllPrimitive(bs)
    ensures || b.encoding + w == Concat(bs)
            || (!strict && b.encoding + w == Concat(bs) + [true])
    decreases |w|, 1
  {
    if |w| == 0 {
      WalkSoundEnd(b, strict, bs);
      assert b.encoding + w == b.encoding;
    } else if TB.TryAdd(b, w[0]).1.depth == 0 {
      WalkSoundClose(w, b, strict, bs);
    } else {
      var step := TB.TryAdd(b, w[0]);
      assert b.encoding + w == b.encoding + [w[0]] + w[1..];
      PositiveSnoc(b.encoding, w[0]);
      WalkSound(w[1..], step.1, strict, bs);
    }
  }

  /** The end of the loop: the builder holds nothing, or (when not strict)
      one lone descent. */
  lemma WalkSoundEnd(b: TB.Builder, strict: bool, bs: seq<seq<bool>>)
    requires b.Valid() && b.maxDepth == -1 && Positive(b.encoding)
    requires Walk([], b, strict) == Ok(bs)
    ensures bs == [] && (b.encoding == [] || (!strict && b.encoding == [true]))
  {
    var p := b.encoding;
    if |p| == 1 {
      PositiveHeight(p);
      assert p == [true];
    }
  }

  /** The step of the loop that completes a block. */
  lemma {:induction false} WalkSoundClose(w: seq<bool>, b: TB.Builder, strict: bool, bs: seq<seq<bool>>)
    requires b.Valid() && b.maxDepth == -1 && Positive(b.encoding)
    requires Walk(w, b, strict) == Ok(bs)
    requires |w| > 0 && TB.TryAdd(b, w[0]).1.depth == 0
    ensures AllPrimitive(bs)
    ensures || b.encoding + w == Concat(bs)
            || (!strict && b.encoding + w == Concat(bs) + [true])
    decreases |w|, 0
  {
    var p := b.encoding;
    var step := TB.TryAdd(b, w[0]);
    var p' := p + [w[0]];
    assert p + w == p' + w[1..];
    assert TB.Build(step.1).encoding == p' by {
      assert p' + Falses(0) == p';
    }
    var rest := Walk(w[1..], TB.New(-1), strict).value;
    assert bs == [p'] + rest;
    WalkSound(w[1..], TB.New(-1), strict, rest);
    SoundBlock(p, w[0], w[1..], rest, strict);
  }

  /** One emitted block in front of the blocks emitted after it. */
  lemma SoundBlock(p: seq<bool>, a: bool, w: seq<bool>, rest: seq<seq<bool>>, strict: bool)
    requires Positive(p) && Height(p + [a]) == 0
    requires AllPrimitive(rest)
    requires w == Concat(rest) || (!strict && w == Concat(rest) + [true])
    ensures AllPrimitive([p + [a]] + rest)
    ensures || p + [a] + w == Concat([p + [a]] + rest)
            || (!strict && p + [a] + w == Concat([p + [a]] + rest) + [true])
  {
    var blk := p + [a];
    assert blk[..|p|] == p;
    assert Primitive(blk);
    var bs := [blk] + rest;
    assert bs[1..] == rest;
    assert Concat(bs) == blk + Concat(rest);
    assert blk + (Concat(rest) + [true]) == Concat(bs) + [true];
  }

  /** The loop succeeds on every acceptable word (read after the part
      already in the builder). */
  lemma {:induction false} WalkAccepts(w: seq<bool>, b: TB.Builder, strict: bool)
    requires b.Valid() && b.maxDepth == -1 && Positive(b.encoding)
    requires Acceptable(b.encoding + w, strict)
    ensures Walk(w, b, strict).Ok?
    decreases |w|
  {
    if |w| == 0 {
      assert b.encoding + w == b.encoding;
      AcceptableEnd(b.encoding, strict);
    } else {
      AcceptsStep(w, b, strict);
      var step := TB.TryAdd(b, w[0]);
      if step.1.depth == 0 {
        assert [] + w[1..] == w[1..];
        WalkAccepts(w[1..], TB.New(-1), strict);
        WalkClose(w, b, strict);
      } else {
        WalkAccepts(w[1..], step.1, strict);
        WalkDescend(w, b, strict);
      }
    }
  }

  /** One bit of an acceptable word is accepted by the builder, and what
      remains is acceptable from the new state. */
  lemma AcceptsStep(w: seq<bool>, b: TB.Builder, strict: bool)
    requires b.Valid() && b.maxDepth == -1 && Positive(b.encoding)
    requires Acceptable(b.encoding + w, strict) && |w| > 0
    ensures TB.TryAdd(b, w[0]).0
    ensures TB.TryAdd(b, w[0]).1.depth == 0 ==> (|w| == 1 || w[1]) && Acceptable(w[1..], strict)
    ensures TB.TryAdd(b, w[0]).1.depth > 0 ==>
              Positive(TB.TryAdd(b, w[0]).1.encoding) && Acceptable(TB.TryAdd(b, w[0]).1.encoding + w[1..], strict)
  {
    var p := b.encoding;
    var a := w[0];
    AcceptsFirstBit(w, b, strict);
    if TB.TryAdd(b, a).1.depth == 0 {
      AcceptsClose(w, b, strict);
    } else {
      ShiftHead(p, w);
      PositiveSnoc(p, a);
    }
  }

  /** At depth 0 an acceptable word goes on with a descent. */
  lemma AcceptsFirstBit(w: seq<bool>, b: TB.Builder, strict: bool)
    requires b.Valid() && b.maxDepth == -1 && Positive(b.encoding)
    requires Acceptable(b.encoding + w, strict) && |w| > 0
    ensures b.depth > 0 || w[0]
  {
    var p := b.encoding;
    if b.depth == 0 {
      if |p| > 0 {
        PositiveHeight(p);
      }
      assert p + w == w;
      AcceptableFirst(w, strict);
    }
  }

  /** A bit that closes a block leaves an acceptable word, which opens
      with a descent. */
  lemma AcceptsClose(w: seq<bool>, b: TB.Builder, strict: bool)
    requires b.Valid() && b.maxDepth == -1
    requires Acceptable(b.encoding + w, strict) && |w| > 0
    requires TB.TryAdd(b, w[0]).0 && TB.TryAdd(b, w[0]).1.depth == 0
    ensures (|w| == 1 || w[1]) && Acceptable(w[1..], strict)
  {
    var p' := b.encoding + [w[0]];
    ShiftHead(b.encoding, w);
    AcceptableSuffix(p', w[1..], strict);
    if |w| > 1 {
      AcceptableFirst(w[1..], strict);
    }
  }

  /** An acceptable word opens with a descent. */
  lemma AcceptableFirst(w: seq<bool>, strict: bool)
    requires Acceptable(w, strict) && |w| > 0
    ensures w[0]
  {
    assert w[..1][..0] == [];
    assert w[..1][0] == w[0];
    assert Height(w[..1]) == if w[0] then 1 else -1;
    if !Balanced(w) {
      var y := w[..|w| - 1];
      if |y| > 0 {
        assert y[..1] == w[..1];
      }
    }
  }

  /** What is left in the builder at the end of an acceptable word: nothing,
      or (when not strict) one lone descent. */
  lemma AcceptableEnd(p: seq<bool>, strict: bool)
    requires Positive(p) && Acceptable(p, strict)
    ensures |p| == 0 || (!strict && |p| == 1)
  {
    if Balanced(p) {
      if |p| > 0 {
        PositiveHeight(p);
      }
    } else {
      var y := p[..|p| - 1];
      assert Height(p) == Height(y) + 1;
    }
  }

  /** After a block that is back at depth 0, the rest must be acceptable on its own. */
  lemma AcceptableSuffix(u: seq<bool>, v: seq<bool>, strict: bool)
    requires Height(u) == 0
    requires Acceptable(u + v, strict)
    ensures Acceptable(v, strict)
  {
    if Balanced(u + v) {
      NonNegSuffix(u, v);
      HeightAppend(u, v);
    } else {
      var x := u + v;
      var y := x[..|x| - 1];
      assert Height(x) == Height(y) + 1;
      HeightAppend(u, v);
      assert |v| > 0;
      var v' := v[..|v| - 1];
      assert y == u + v';
      NonNegSuffix(u, v');
      HeightAppend(u, v');
    }
  }

  /** Completeness: on one complete block `p + q` (the builder holding `p`),
      followed by further complete blocks and an acceptable tail, the loop
      emits exactly these blocks. */
  lemma {:induction false} WalkBlocks(q: seq<bool>, b: TB.Builder, strict: bool, bs: seq<seq<bool>>, r: seq<bool>)
    requires b.Valid() && b.maxDepth == -1
    requires AllPrimitive(bs) && |bs| > 0
    requires |q| > 0 && b.encoding + q == bs[0]
    requires r == [] || (!strict && r == [true])
    ensures Walk(q + Concat(bs[1..]) + r, b, strict) == Ok(bs)
    decreases |q| + |Concat(bs[1..])|
  {
    BlockStep(q, b, bs, r);
    if |q| == 1 {
      if |bs| > 1 {
        BlocksHead(bs[1..], r);
        WalkBlocks(bs[1], TB.New(-1), strict, bs[1..], r);
      } else {
        WalkTail(r, strict);
      }
      BlocksClose(q, b, strict, bs, r);
    } else {
      WalkBlocks(q[1..], TB.TryAdd(b, q[0]).1, strict, bs, r);
      BlocksDescend(q, b, strict, bs, r);
    }
  }

  lemma BlocksClose(q: seq<bool>, b: TB.Builder, strict: bool, bs: seq<seq<bool>>, r: seq<bool>)
    requires b.Valid() && b.maxDepth == -1
    requires AllPrimitive(bs) && |bs| > 0
    requires |q| == 1 && b.encoding + q == bs[0]
    requires |bs| > 1 ==> Walk(bs[1] + Concat(bs[1..][1..]) + r, TB.New(-1), strict) == Ok(bs[1..])
    requires |bs| == 1 ==> Walk(r, TB.New(-1), strict) == Ok([])
    requires r == [] || (!strict && r == [true])
    ensures Walk(q + Concat(bs[1..]) + r, b, strict) == Ok(bs)
  {
    var w := q + Concat(bs[1..]) + r;
    BlockStep(q, b, bs, r);
    var tail := Concat(bs[1..]) + r;
    assert w[1..] == tail;
    BlocksCloseTail(bs, r, strict);
    WalkClose(w, b, strict);
    assert bs == [bs[0]] + bs[1..];
  }

  /** What follows a closed block: nothing, or a word opening with a
      descent, from which the loop emits the remaining blocks. */
  lemma BlocksCloseTail(bs: seq<seq<bool>>, r: seq<bool>, strict: bool)
    requires AllPrimitive(bs) && |bs| > 0
    requires |bs| > 1 ==> Walk(bs[1] + Concat(bs[1..][1..]) + r, TB.New(-1), strict) == Ok(bs[1..])
    requires |bs| == 1 ==> Walk(r, TB.New(-1), strict) == Ok([])
    requires r == [] || (!strict && r == [true])
    ensures var tail := Concat(bs[1..]) + r;
            && (|tail| == 0 || tail[0])
            && Walk(tail, TB.New(-1), strict) == Ok(bs[1..])
  {
    var tail := Concat(bs[1..]) + r;
    if |bs| > 1 {
      BlocksHead(bs[1..], r);
    } else {
      assert tail == r;
    }
  }

  lemma BlocksDescend(q: seq<bool>, b: TB.Builder, strict: bool, bs: seq<seq<bool>>, r: seq<bool>)
    requires b.Valid() && b.maxDepth == -1
    requires AllPrimitive(bs) && |bs| > 0
    requires |q| > 1 && b.encoding + q == bs[0]
    requires TB.TryAdd(b, q[0]).0 && TB.TryAdd(b, q[0]).1.depth > 0
    requires Walk(q[1..] + Concat(bs[1..]) + r, TB.TryAdd(b, q[0]).1, strict) == Ok(bs)
    ensures Walk(q + Concat(bs[1..]) + r, b, strict) == Ok(bs)
  {
    var w := q + Concat(bs[1..]) + r;
    assert w[0] == q[0];
    assert w[1..] == q[1..] + Concat(bs[1..]) + r;
    WalkDescend(w, b, strict);
  }

  /** Reading one bit of a complete block: the builder accepts it, and is
      back at depth 0 exactly at the end of the block. */
  lemma BlockStep(q: seq<bool>, b: TB.Builder, bs: seq<seq<bool>>, r: seq<bool>)
    requires b.Valid() && b.maxDepth == -1
    requires AllPrimitive(bs) && |bs| > 0
    requires |q| > 0 && b.encoding + q == bs[0]
    ensures (q + Concat(bs[1..]) + r)[0] == q[0]
    ensures (q + Concat(bs[1..]) + r)[1..] == q[1..] + Concat(bs[1..]) + r
    ensures TB.TryAdd(b, q[0]).0
    ensures |q| == 1 ==> TB.TryAdd(b, q[0]).1.depth == 0 && b.encoding + [q[0]] == bs[0]
    ensures |q| > 1 ==> TB.TryAdd(b, q[0]).1.depth > 0 && TB.TryAdd(b, q[0]).1.encoding + q[1..] == bs[0]
  {
    BlockPrefix(b.encoding, q, bs[0]);
    var c := Concat(bs[1..]) + r;
    assert q + Concat(bs[1..]) + r == q + c;
    assert (q + c)[1..] == q[1..] + c;
  }

  /** A proper prefix `p` of a complete block lies strictly above depth 0
      unless empty; the bit after it is a descent when `p` is empty, closes
      the block when it is the last one, and stays above depth 0 otherwise. */
  lemma BlockPrefix(p: seq<bool>, q: seq<bool>, blk: seq<bool>)
    requires Primitive(blk) && |q| > 0 && p + q == blk
    ensures |p| == 0 ==> q[0]
    ensures |p| > 0 ==> Height(p) > 0
    ensures |q| == 1 ==> p + [q[0]] == blk && Height(blk) == 0
    ensures |q| > 1 ==> Height(p + [q[0]]) > 0 && p + [q[0]] + q[1..] == blk
  {
    PrimitiveEnds(blk);
    var p' := p + [q[0]];
    assert p' == blk[..|p'|];
    if |p| > 0 {
      assert blk[..|blk| - 1][..|p|] == p;
      PositivePrefix(blk[..|blk| - 1], |p|);
      PositiveHeight(p);
    }
    if |q| > 1 {
      assert blk[..|blk| - 1][..|p'|] == p';
      PositivePrefix(blk[..|blk| - 1], |p'|);
      PositiveHeight(p');
      ShiftHead(p, q);
    } else {
      assert p' == blk;
    }
  }

  /** Moving the first bit of `q` to the end of `p`. */
  lemma ShiftHead(p: seq<bool>, q: seq<bool>)
    requires |q| > 0
    ensures p + [q[0]] + q[1..] == p + q
  {
    assert q == [q[0]] + q[1..];
  }

  /** The word after a block boundary starts with the next block. */
  lemma BlocksHead(bs: seq<seq<bool>>, r: seq<bool>)
    requires AllPrimitive(bs) && |bs| > 0
    ensures Concat(bs) + r == bs[0] + Concat(bs[1..]) + r
    ensures AllPrimitive(bs[1..])
    ensures [] + bs[0] == bs[0]
    ensures (Concat(bs) + r)[0]
    ensures |Concat(bs)| == |bs[0]| + |Concat(bs[1..])|
  {
    PrimitiveEnds(bs[0]);
  }

  lemma WalkTail(r: seq<bool>, strict: bool)
    requires r == [] || (!strict && r == [true])
    ensures Walk(r, TB.New(-1), strict) == Ok([])
  {
    if r == [true] {
      assert r[1..] == [];
    }
  }

  // ---------------------------------------------------------------------
  // GetSubTrees properties

  /** The exact language `GetSubTrees` accepts: a descent, then a Dyck word
      possibly followed by one unmatched descent, then a return.  The strict
      variant drops the unmatched descent. */
  lemma SubTreesLanguage(t: Tree, strict: bool)
    ensures SubTrees(t, strict).Ok? <==> Accepted(t.bits, strict)
  {
    var e := t.bits;
    if |e| >= 2 && e[0] && !e[|e| - 1] {
      var w := e[1..|e| - 1];
      if |e| > 2 {
        WalkLanguage(w, strict);
      } else {
        assert w == [];
        assert Balanced(w) by { assert w[..0] == w; }
      }
    }
  }

  /** The loop from a fresh builder succeeds exactly on acceptable words. */
  lemma WalkLanguage(w: seq<bool>, strict: bool)
    ensures Walk(w, TB.New(-1), strict).Ok? <==> Acceptable(w, strict)
  {
    if Acceptable(w, strict) {
      assert [] + w == w;
      WalkAccepts(w, TB.New(-1), strict);
    }
    if Walk(w, TB.New(-1), strict).Ok? {
      WalkOkAcceptable(w, strict);
    }
  }

  /** A word the loop accepts is acceptable. */
  lemma WalkOkAcceptable(w: seq<bool>, strict: bool)
    requires Walk(w, TB.New(-1), strict).Ok?
    ensures Acceptable(w, strict)
  {
    WalkFromRoot(w, strict);
    var walked := Walk(w, TB.New(-1), strict).value;
    ConcatBalanced(walked);
    AcceptableOfDyck(w, Concat(walked), strict);
  }

  /** A Dyck word, followed when not strict by one descent, is acceptable. */
  lemma AcceptableOfDyck(w: seq<bool>, c: seq<bool>, strict: bool)
    requires Balanced(c)
    requires w == c || (!strict && w == c + [true])
    ensures Acceptable(w, strict)
  {
    if w != c {
      assert w[..|w| - 1] == c;
    }
  }

  lemma GetSubTreesLanguage(t: Tree)
    ensures GetSubTrees(t).Ok? <==> Accepted(t.bits, false)
  {
    SubTreesLanguage(t, false);
  }

  lemma GetSubTreesStrictLanguage(t: Tree)
    ensures GetSubTreesStrict(t).Ok? <==> Accepted(t.bits, true)
  {
    SubTreesLanguage(t, true);
  }

  /** For `1 · B1 … Bk · 0` with complete blocks `Bi`, the subtrees are exactly
      `B1 … Bk`, in order (and the same with one lone descent before the last
      bit, which the code silently drops). */
  lemma SubTreesOfBlocks(bs: seq<seq<bool>>, r: seq<bool>, strict: bool)
    requires AllPrimitive(bs)
    requires r == [] || (!strict && r == [true])
    ensures SubTrees(Tree([true] + Concat(bs) + r + [false]), strict) == Ok(Trees(bs))
  {
    var e := [true] + Concat(bs) + r + [false];
    var w := Concat(bs) + r;
    assert e[1..|e| - 1] == w;
    if |bs| > 0 {
      PrimitiveEnds(bs[0]);
      assert Concat(bs) == bs[0] + Concat(bs[1..]);
      assert [] + bs[0] == bs[0];
      WalkBlocks(bs[0], TB.New(-1), strict, bs, r);
      assert w == bs[0] + Concat(bs[1..]) + r;
    } else {
      assert w == r;
      WalkTail(r, strict);
      if |e| == 2 {
        assert Trees(bs) == [];
      }
    }
  }

  lemma GetSubTreesOfBlocks(bs: seq<seq<bool>>)
    requires AllPrimitive(bs)
    ensures GetSubTrees(Tree([true] + Concat(bs) + [false])) == Ok(Trees(bs))
  {
    assert [true] + Concat(bs) + [] + [false] == [true] + Concat(bs) + [false];
    SubTreesOfBlocks(bs, [], false);
  }

  /** When the interior is a Dyck word, the number of subtrees is the number
      of descents to depth 2, which is `GetShape(t)[1]` when there is one. */
  lemma SubTreeCount(t: Tree)
    requires GetSubTrees(t).Ok?
    requires t.bits == [true] + Concat(Encodings(GetSubTrees(t).value)) + [false]
    ensures |GetSubTrees(t).value| == Raises(t.bits, 2)
    ensures |GetSubTrees(t).value| > 0 ==> |GetShape(t)| > 1 && GetShape(t)[1] == |GetSubTrees(t).value|
  {
    var bs := Encodings(GetSubTrees(t).value);
    var c := Concat(bs);
    RaisesConcat(bs);
    ConcatBalanced(bs);
    RaisesAppend([true], c, 2);
    RaisesAppend([true] + c, [false], 2);
    assert [true][..0] == [];
    assert Raises([true], 2) == 0;
    assert Raises([false], 1) == 0 by { assert [false][..0] == []; }
    assert Height([true]) == 1 by { assert [true][..0] == []; }
    HeightAppend([true], c);
    WrappedNonNeg(c);
    if |bs| > 0 {
      assert Raises(t.bits, 2) > 0;
      var r := GetShape(t);
      ShapeMapCounts(t.bits, 2);
      ShapeMapKeysContiguous(t.bits);
    }
  }

  /** `1 · x · 0` never dips below 0 when `x` is a Dyck word. */
  lemma WrappedNonNeg(x: seq<bool>)
    requires Balanced(x)
    ensures NonNeg([true] + x + [false])
    ensures Height([true] + x + [false]) == 0
  {
    var one := [true];
    assert Balanced(one + []) ==> true;
    assert Height(one) == 1 by { assert one[..0] == []; }
    forall i | 0 <= i <= |one + x|
      ensures Height((one + x)[..i]) >= 0
    {
      if i == 0 {
        assert (one + x)[..i] == [];
      } else {
        assert (one + x)[..i] == one + x[..i - 1];
        HeightAppend(one, x[..i - 1]);
      }
    }
    HeightAppend(one, x);
    assert x[..|x|] == x;
    NonNegSnoc(one + x, false);
    assert (one + x + [false])[..|one + x|] == one + x;
  }

  /** The as-written loop lets a lone trailing descent through: `110`
      decomposes into no subtrees although its interior `1` is no Dyck word;
      the strict reading rejects it. */
  lemma LoneDescentDropped()
    ensures GetSubTrees(Tree([true, true, false])) == Ok([])
    ensures !Balanced([true])
    ensures GetSubTreesStrict(Tree([true, true, false])).Err?
  {
    assert [true][..1] == [true];
    assert [true][..0] == [];
    assert Height([true]) == 1;
    GetSubTreesStrictLanguage(Tree([true, true, false]));
    assert [true, true, false][1..2] == [true];
    var w: seq<bool> := [true];
    assert w[1..] == [];
  }
}
