/** Bracket words: the vocabulary of the shape-tree encoding.

    A shape tree is a sequence of bits where `true` descends into a new child
    and `false` returns to the parent.  This module defines the running depth,
    the well-formedness notions (Dyck words and their primitive blocks), and
    the per-depth count of descents that both `TreeBuilder.Shape` and
    `TreeExt.GetShape` compute.
 */
module Dyck {

  /** Running depth after reading `s`: descents minus returns. */
  function Height(s: seq<bool>): int
  {
    if |s| == 0 then 0 else Height(s[..|s| - 1]) + (if s[|s| - 1] then 1 else -1)
  }

  /** Number of descents (`true` bits): the number of tree nodes. */
  function Ones(s: seq<bool>): nat
  {
    if |s| == 0 then 0 else Ones(s[..|s| - 1]) + (if s[|s| - 1] then 1 else 0)
  }

  /** Every prefix stays at depth 0 or deeper. */
  predicate NonNeg(s: seq<bool>)
  {
    forall i :: 0 <= i <= |s| ==> Height(s[..i]) >= 0
  }

  /** A Dyck word: never below depth 0 and back at depth 0 at the end. */
  predicate Balanced(s: seq<bool>)
  {
    NonNeg(s) && Height(s) == 0
  }

  /** Every non-empty prefix is strictly below the starting level (depth > 0). */
  predicate Positive(s: seq<bool>)
  {
    forall i :: 0 < i <= |s| ==> Height(s[..i]) > 0
  }

  /** One complete subtree: non-empty, balanced, and back at depth 0 only at its end. */
  predicate Primitive(s: seq<bool>)
  {
    |s| > 0 && Height(s) == 0 && Positive(s[..|s| - 1])
  }

  /** The deepest depth reached by any prefix. */
  function Peak(s: seq<bool>): (p: int)
    ensures p >= 0 && p >= Height(s)
  {
    if |s| == 0 then 0
    else
      var p := Peak(s[..|s| - 1]);
      if Height(s) > p then Height(s) else p
  }

  /** The dictionary `depth -> number of descents that reached that depth`,
      built left to right exactly as the shape dictionaries of the C# code are. */
  function ShapeMap(s: seq<bool>): map<int, int>
  {
    if |s| == 0 then map[]
    else
      var m := ShapeMap(s[..|s| - 1]);
      if s[|s| - 1] then
        var h := Height(s);
        m[h := (if h in m then m[h] else 0) + 1]
      else m
  }

  /** `OrderBy(pair => pair.Key).Select(pair => pair.Value)` restricted to the
      keys in `[lo, hi)`, in increasing key order. */
  function SortedValues(m: map<int, int>, lo: int, hi: int): seq<int>
    decreases hi - lo
  {
    if lo >= hi then []
    else (if lo in m then [m[lo]] else []) + SortedValues(m, lo + 1, hi)
  }

  function Sum(xs: seq<int>): int
  {
    if |xs| == 0 then 0 else xs[0] + Sum(xs[1..])
  }

  /** `n` returns in a row. */
  function Falses(n: nat): (s: seq<bool>)
    ensures |s| == n && forall i :: 0 <= i < n ==> !s[i]
  {
    seq(n, _ => false)
  }

  /** Number of descents that reach depth `d`: the count the shape
      dictionary keeps under key `d`, defined independently of any map. */
  function Raises(s: seq<bool>, d: int): nat
  {
    if |s| == 0 then 0
    else Raises(s[..|s| - 1], d) + (if s[|s| - 1] && Height(s) == d then 1 else 0)
  }

  /** Concatenation of a list of encodings. */
  function Concat(bs: seq<seq<bool>>): seq<bool>
  {
    if |bs| == 0 then [] else bs[0] + Concat(bs[1..])
  }

  // ---------------------------------------------------------------------
  // Running depth

  lemma {:induction false} HeightAppend(a: seq<bool>, b: seq<bool>)
    ensures Height(a + b) == Height(a) + Height(b)
    decreases |b|
  {
    if |b| == 0 {
      assert a + b == a;
    } else {
      var b' := b[..|b| - 1];
      assert (a + b)[..|a + b| - 1] == a + b';
      assert (a + b)[|a + b| - 1] == b[|b| - 1];
      HeightAppend(a, b');
    }
  }

  lemma {:induction false} OnesAppend(a: seq<bool>, b: seq<bool>)
    ensures Ones(a + b) == Ones(a) + Ones(b)
    decreases |b|
  {
    if |b| == 0 {
      assert a + b == a;
    } else {
      var b' := b[..|b| - 1];
      assert (a + b)[..|a + b| - 1] == a + b';
      assert (a + b)[|a + b| - 1] == b[|b| - 1];
      OnesAppend(a, b');
    }
  }

  /** Depth is descents minus returns, and there are at most |s| of each. */
  lemma {:induction false} HeightCounts(s: seq<bool>)
    ensures 2 * Ones(s) == |s| + Height(s)
    ensures -|s| <= Height(s) <= |s|
    decreases |s|
  {
    if |s| > 0 {
      HeightCounts(s[..|s| - 1]);
    }
  }

  lemma NonNegPrefix(s: seq<bool>, n: nat)
    requires NonNeg(s) && n <= |s|
    ensures NonNeg(s[..n])
  {
    forall i | 0 <= i <= n
      ensures Height(s[..n][..i]) >= 0
    {
      assert s[..n][..i] == s[..i];
    }
  }

  /** A word that never dips below depth 0 ends at depth 0 or deeper. */
  lemma NonNegHeight(s: seq<bool>)
    requires NonNeg(s)
    ensures Height(s) >= 0
  {
    assert s[..|s|] == s;
  }

  lemma NonNegSnoc(s: seq<bool>, b: bool)
    requires NonNeg(s) && Height(s + [b]) >= 0
    ensures NonNeg(s + [b])
  {
    forall i | 0 <= i <= |s + [b]|
      ensures Height((s + [b])[..i]) >= 0
    {
      if i <= |s| {
        assert (s + [b])[..i] == s[..i];
      } else {
        assert (s + [b])[..i] == s + [b];
      }
    }
  }

  /** A primitive block starts by descending and ends by returning. */
  lemma PrimitiveEnds(s: seq<bool>)
    requires Primitive(s)
    ensures s[0] && !s[|s| - 1] && |s| >= 2
  {
    assert s[..|s|][..|s| - 1] == s[..|s| - 1];
    if |s| == 1 {
      assert false;
    }
    assert s[..|s| - 1][..1] == s[..1];
    assert Height(s[..1]) > 0;
    assert Height(s[..1]) == Height(s[..1][..0]) + (if s[0] then 1 else -1);
    assert s[..|s| - 1] == s[..|s| - 1][..|s| - 1];
    assert Height(s[..|s| - 1]) > 0;
  }

  /** Primitive blocks are Dyck words. */
  lemma PrimitiveBalanced(s: seq<bool>)
    requires Primitive(s)
    ensures Balanced(s)
  {
    forall i | 0 <= i <= |s|
      ensures Height(s[..i]) >= 0
    {
      if 0 < i < |s| {
        assert s[..|s| - 1][..i] == s[..i];
      } else if i == |s| {
        assert s[..i] == s;
      }
    }
  }

  lemma {:induction false} ConcatBalanced(bs: seq<seq<bool>>)
    requires forall i :: 0 <= i < |bs| ==> Primitive(bs[i])
    ensures Balanced(Concat(bs))
    decreases |bs|
  {
    if |bs| > 0 {
      PrimitiveBalanced(bs[0]);
      ConcatBalanced(bs[1..]);
      BalancedAppend(bs[0], Concat(bs[1..]));
    }
  }

  lemma BalancedAppend(a: seq<bool>, b: seq<bool>)
    requires Balanced(a) && NonNeg(b)
    ensures NonNeg(a + b) && Height(a + b) == Height(b)
  {
    HeightAppend(a, b);
    forall i | 0 <= i <= |a + b|
      ensures Height((a + b)[..i]) >= 0
    {
      if i <= |a| {
        assert (a + b)[..i] == a[..i];
      } else {
        assert (a + b)[..i] == a + b[..i - |a|];
        HeightAppend(a, b[..i - |a|]);
      }
    }
  }

  // ---------------------------------------------------------------------
  // The shape dictionary

  /** Returns do not touch the shape dictionary. */
  lemma ShapeMapSnocFalse(s: seq<bool>)
    ensures ShapeMap(s + [false]) == ShapeMap(s)
  {
    assert (s + [false])[..|s|] == s;
  }

  lemma {:induction false} ShapeMapAppendFalses(s: seq<bool>, n: nat)
    ensures ShapeMap(s + Falses(n)) == ShapeMap(s)
    decreases n
  {
    if n == 0 {
      assert s + Falses(n) == s;
    } else {
      var t := s + Falses(n - 1);
      assert s + Falses(n) == t + [false];
      ShapeMapSnocFalse(t);
      ShapeMapAppendFalses(s, n - 1);
    }
  }

  /** Every key is the depth of some prefix, hence within ±|s|. */
  lemma {:induction false} ShapeMapKeysBounded(s: seq<bool>)
    ensures forall k :: k in ShapeMap(s) ==> -|s| <= k <= |s|
    decreases |s|
  {
    if |s| > 0 {
      ShapeMapKeysBounded(s[..|s| - 1]);
      HeightCounts(s);
    }
  }

  lemma {:induction false} PeakBounded(s: seq<bool>)
    ensures Peak(s) <= |s|
    decreases |s|
  {
    if |s| > 0 {
      PeakBounded(s[..|s| - 1]);
      HeightCounts(s);
    }
  }

  /** Returns never raise the peak. */
  lemma PeakSnocFalse(s: seq<bool>)
    ensures Peak(s + [false]) == Peak(s)
  {
    assert (s + [false])[..|s|] == s;
  }

  /** On a word that never dips below 0 the keys are exactly 1 .. Peak: no gaps. */
  lemma {:induction false} ShapeMapKeysContiguous(s: seq<bool>)
    requires NonNeg(s)
    ensures forall k :: k in ShapeMap(s) <==> 1 <= k <= Peak(s)
    decreases |s|
  {
    if |s| > 0 {
      var p := s[..|s| - 1];
      NonNegPrefix(s, |s| - 1);
      ShapeMapKeysContiguous(p);
      assert s[..|s|] == s;
      assert Height(s) >= 0;
    }
  }

  /** Every key on a non-negative word counts at least one descent. */
  lemma {:induction false} ShapeMapValuesPositive(s: seq<bool>)
    ensures forall k :: k in ShapeMap(s) ==> ShapeMap(s)[k] >= 1
    decreases |s|
  {
    if |s| > 0 {
      ShapeMapValuesPositive(s[..|s| - 1]);
    }
  }

  /** The dictionary holds, under each depth, the number of descents reaching
      it, and has no key for a depth no descent reaches. */
  lemma {:induction false} ShapeMapCounts(s: seq<bool>, d: int)
    ensures d in ShapeMap(s) ==> ShapeMap(s)[d] == Raises(s, d)
    ensures d !in ShapeMap(s) ==> Raises(s, d) == 0
    decreases |s|
  {
    if |s| > 0 {
      ShapeMapCounts(s[..|s| - 1], d);
    }
  }

  lemma {:induction false} RaisesAppend(a: seq<bool>, b: seq<bool>, d: int)
    ensures Raises(a + b, d) == Raises(a, d) + Raises(b, d - Height(a))
    decreases |b|
  {
    if |b| == 0 {
      assert a + b == a;
    } else {
      var b' := b[..|b| - 1];
      assert (a + b)[..|a + b| - 1] == a + b';
      assert (a + b)[|a + b| - 1] == b[|b| - 1];
      RaisesAppend(a, b', d);
      HeightAppend(a, b);
    }
  }

  /** A primitive block reaches depth 1 exactly once, with its first bit. */
  lemma RaisesPrimitive(s: seq<bool>)
    requires Primitive(s)
    ensures Raises(s, 1) == 1
  {
    PrimitiveEnds(s);
    assert s[..1][..0] == [];
    assert s[..1][0] == s[0];
    assert Height(s[..1]) == 1;
    assert Raises(s[..1][..0], 1) == 0;
    var i := 1;
    while i < |s|
      invariant 1 <= i <= |s|
      invariant Raises(s[..i], 1) == 1
    {
      assert s[..i + 1][..i] == s[..i];
      assert s[..|s| - 1][..i] == s[..i];
      i := i + 1;
    }
    assert s[..|s|] == s;
  }

  /** A concatenation of primitive blocks reaches depth 1 once per block. */
  lemma {:induction false} RaisesConcat(bs: seq<seq<bool>>)
    requires forall i :: 0 <= i < |bs| ==> Primitive(bs[i])
    ensures Raises(Concat(bs), 1) == |bs|
    decreases |bs|
  {
    if |bs| > 0 {
      RaisesPrimitive(bs[0]);
      RaisesConcat(bs[1..]);
      RaisesAppend(bs[0], Concat(bs[1..]), 1);
    }
  }

  /** A non-empty word whose non-empty prefixes all stay above 0 ends above 0. */
  lemma PositiveHeight(p: seq<bool>)
    requires Positive(p) && |p| > 0
    ensures Height(p) > 0
  {
    assert p[..|p|] == p;
  }

  lemma PositivePrefix(p: seq<bool>, j: nat)
    requires Positive(p) && j <= |p|
    ensures Positive(p[..j])
  {
    forall i | 0 < i <= j
      ensures Height(p[..j][..i]) > 0
    {
      assert p[..j][..i] == p[..i];
    }
  }

  lemma PositiveSnoc(p: seq<bool>, a: bool)
    requires Positive(p) && Height(p + [a]) > 0
    ensures Positive(p + [a])
  {
    forall i | 0 < i <= |p + [a]|
      ensures Height((p + [a])[..i]) > 0
    {
      if i <= |p| {
        assert (p + [a])[..i] == p[..i];
      } else {
        assert (p + [a])[..i] == p + [a];
      }
    }
  }

  /** After a prefix that is back at depth 0, the rest is judged on its own. */
  lemma NonNegSuffix(u: seq<bool>, v: seq<bool>)
    requires NonNeg(u + v) && Height(u) == 0
    ensures NonNeg(v)
  {
    forall i | 0 <= i <= |v|
      ensures Height(v[..i]) >= 0
    {
      assert (u + v)[..|u| + i] == u + v[..i];
      HeightAppend(u, v[..i]);
    }
  }

  // ---------------------------------------------------------------------
  // Ordered values

  lemma {:induction false} SumSortedValuesUpdate(m: map<int, int>, k: int, v: int, lo: int, hi: int)
    requires lo <= k < hi
    ensures Sum(SortedValues(m[k := v], lo, hi))
         == Sum(SortedValues(m, lo, hi)) + v - (if k in m then m[k] else 0)
    decreases hi - lo
  {
    var rest := SortedValues(m, lo + 1, hi);
    var rest' := SortedValues(m[k := v], lo + 1, hi);
    var head := if lo in m then [m[lo]] else [];
    var head' := if lo in m[k := v] then [m[k := v][lo]] else [];
    assert SortedValues(m, lo, hi) == head + rest;
    assert SortedValues(m[k := v], lo, hi) == head' + rest';
    SumPrefix(head, rest);
    SumPrefix(head', rest');
    if lo < k {
      SumSortedValuesUpdate(m, k, v, lo + 1, hi);
    } else {
      SortedValuesIgnoresOutside(m, m[k := v], lo + 1, hi);
    }
  }

  lemma SumPrefix(head: seq<int>, rest: seq<int>)
    requires |head| <= 1
    ensures Sum(head + rest) == Sum(head) + Sum(rest)
  {
    if |head| == 1 {
      assert (head + rest)[1..] == rest;
    } else {
      assert head + rest == rest;
    }
  }

  /** Two maps that agree on the keys in [lo, hi) have the same ordered values there. */
  lemma {:induction false} SortedValuesIgnoresOutside(m: map<int, int>, m': map<int, int>, lo: int, hi: int)
    requires forall k :: lo <= k < hi ==> (k in m <==> k in m')
    requires forall k :: lo <= k < hi && k in m ==> m[k] == m'[k]
    ensures SortedValues(m, lo, hi) == SortedValues(m', lo, hi)
    decreases hi - lo
  {
    if lo < hi {
      SortedValuesIgnoresOutside(m, m', lo + 1, hi);
    }
  }

  /** The ordered values of a shape dictionary sum to the number of descents,
      once the range covers every key. */
  lemma {:induction false} SumShapeMapIsOnes(s: seq<bool>, lo: int, hi: int)
    requires lo <= -|s| && |s| < hi
    ensures Sum(SortedValues(ShapeMap(s), lo, hi)) == Ones(s)
    decreases |s|
  {
    if |s| > 0 {
      var p := s[..|s| - 1];
      SumShapeMapIsOnes(p, lo, hi);
      if s[|s| - 1] {
        HeightCounts(s);
        var m := ShapeMap(p);
        var h := Height(s);
        var v := (if h in m then m[h] else 0) + 1;
        assert ShapeMap(s) == m[h := v];
        SumSortedValuesUpdate(m, h, v, lo, hi);
        assert Ones(s) == Ones(p) + 1;
        assert Sum(SortedValues(m[h := v], lo, hi)) == Ones(p) + 1;
      } else {
        assert ShapeMap(s) == ShapeMap(p);
      }
    } else {
      SortedValuesOfEmpty(lo, hi);
    }
  }

  lemma {:induction false} SortedValuesOfEmpty(lo: int, hi: int)
    ensures SortedValues(map[], lo, hi) == []
    decreases hi - lo
  {
    if lo < hi {
      SortedValuesOfEmpty(lo + 1, hi);
    }
  }

  /** When every key of [lo, hi) is present, the ordered values list them all. */
  lemma {:induction false} SortedValuesFull(m: map<int, int>, lo: int, hi: int)
    requires lo <= hi
    requires forall k :: lo <= k < hi ==> k in m
    ensures |SortedValues(m, lo, hi)| == hi - lo
    ensures forall i :: 0 <= i < hi - lo ==> SortedValues(m, lo, hi)[i] == m[lo + i]
    decreases hi - lo
  {
    if lo < hi {
      SortedValuesFull(m, lo + 1, hi);
    }
  }

  /** Ranges without keys contribute nothing at the low end. */
  lemma {:induction false} SortedValuesDropLow(m: map<int, int>, lo: int, mid: int, hi: int)
    requires lo <= mid <= hi
    requires forall k :: lo <= k < mid ==> k !in m
    ensures SortedValues(m, lo, hi) == SortedValues(m, mid, hi)
    decreases mid - lo
  {
    if lo < mid {
      SortedValuesDropLow(m, lo + 1, mid, hi);
    }
  }

  /** Ranges without keys contribute nothing at the high end. */
  lemma {:induction false} SortedValuesDropHigh(m: map<int, int>, lo: int, mid: int, hi: int)
    requires lo <= mid <= hi
    requires forall k :: mid <= k < hi ==> k !in m
    ensures SortedValues(m, lo, hi) == SortedValues(m, lo, mid)
    decreases hi - lo
  {
    if lo < mid {
      SortedValuesDropHigh(m, lo + 1, mid, hi);
    } else if lo < hi {
      SortedValuesDropHigh(m, lo + 1, lo + 1, hi);
    }
  }

  /** Shifting every key by one shifts the range. */
  lemma {:induction false} SortedValuesShift(m: map<int, int>, m': map<int, int>, lo: int, hi: int)
    requires forall k :: lo <= k < hi ==> (k in m <==> k + 1 in m')
    requires forall k :: lo <= k < hi && k in m ==> m'[k + 1] == m[k]
    ensures SortedValues(m', lo + 1, hi + 1) == SortedValues(m, lo, hi)
    decreases hi - lo
  {
    if lo < hi {
      SortedValuesShift(m, m', lo + 1, hi);
    }
  }

  /** Wrapping a non-negative word under one extra descent: depth 1 is visited
      once, and every other depth is the old one shifted down by one level. */
  lemma {:induction false} ShapeMapUnderRoot(e: seq<bool>)
    requires NonNeg(e)
    ensures 1 in ShapeMap([true] + e) && ShapeMap([true] + e)[1] == 1
    ensures forall k :: k in ShapeMap(e) ==> k + 1 in ShapeMap([true] + e) && ShapeMap([true] + e)[k + 1] == ShapeMap(e)[k]
    ensures forall k :: k in ShapeMap([true] + e) ==> k == 1 || k - 1 in ShapeMap(e)
    decreases |e|
  {
    ShapeMapKeysContiguous(e);
    if |e| == 0 {
      assert [true] + e == [true];
      assert [true][..0] == [];
    } else {
      var p := e[..|e| - 1];
      NonNegPrefix(e, |e| - 1);
      ShapeMapUnderRoot(p);
      ShapeMapKeysContiguous(p);
      assert ([true] + e)[..|e|] == [true] + p;
      HeightAppend([true], p);
      HeightAppend([true], e);
      assert [true][..0] == [];
      assert e[..|e|] == e;
    }
  }
}
