/** The Core `RequestProcessor`: what a request produces from its inputs.

    A final request yields a value; an aggregation request yields a value
    computed from the results it waits for; a compute request splits its
    `NbSubrequests` among children and adds one aggregation request that
    combines their results.  `(int)Math.Pow(n, 1.0 / depth)` is a function
    parameter `root`, constrained only by `RootSpec`. */
module CoreProcessor {
  import opened Wrappers
  import opened Bytes
  import opened Text
  import opened CoreRequests
  import opened RequestResults
  import opened Numerics
  import CryptoHashCode

  // ---------------------------------------------------------------------
  // String helpers

  /** `GetResultString(taskId)`: `"{taskId}_result"`. */
  function GetResultString(taskId: string): (s: string)
    ensures |s| == |taskId| + 7 && s[..|taskId|] == taskId && s[|taskId|..] == "_result"
  {
    taskId + "_result"
  }

  /** Different ids give different result strings. */
  lemma ResultStringInjective(a: string, b: string)
    ensures GetResultString(a) == GetResultString(b) ==> a == b
  {
    if GetResultString(a) == GetResultString(b) {
      assert |a| == |b|;
      assert a == GetResultString(a)[..|a|];
    }
  }

  /** `GetAggregateString(res)`: `"Aggregate_{res}"` for an unsigned `res`. */
  function GetAggregateString(res: nat): string
  {
    "Aggregate_" + NatToString(res)
  }

  /** Different checksums give different aggregate strings, and the checksum
      can be read back from the string. */
  lemma AggregateStringInjective(a: nat, b: nat)
    ensures GetAggregateString(a)[..10] == "Aggregate_"
    ensures DigitsValue(GetAggregateString(a)[10..]) == a
    ensures GetAggregateString(a) == GetAggregateString(b) ==> a == b
  {
    assert GetAggregateString(a)[10..] == NatToString(a);
    assert GetAggregateString(b)[10..] == NatToString(b);
    NatToStringRoundTrip(a);
    NatToStringRoundTrip(b);
  }

  /** `GetAggregationRes(results)`: the sequence checksum of the results. */
  function GetAggregationRes(results: seq<string>): (h: nat)
    ensures h < 0x1_0000_0000
  {
    CryptoHashCode.SeqHashValue(results)
  }

  /** `ids.Select(GetResultString)`. */
  function ResultStrings(ids: seq<string>): (r: seq<string>)
    ensures |r| == |ids| && forall i :: 0 <= i < |ids| ==> r[i] == GetResultString(ids[i])
  {
    seq(|ids|, i requires 0 <= i < |ids| => GetResultString(ids[i]))
  }

  /** `subRequests.Select(sr => sr.Id)`. */
  function Ids(rs: seq<Request>): (r: seq<string>)
    ensures |r| == |rs| && forall i :: 0 <= i < |rs| ==> r[i] == rs[i].id
  {
    seq(|rs|, i requires 0 <= i < |rs| => rs[i].id)
  }

  /** `$"{id}_{i}"`. */
  function ChildId(id: string, i: nat): string
  {
    id + "_" + NatToString(i)
  }

  function MsgNoInputs(count: nat): string
  {
    "request requires no inputs, " + NatToString(count) + " provided."
  }

  function MsgInputCount(required: nat, count: nat): string
  {
    "request requires " + NatToString(required) + " inputs, " + NatToString(count) + " provided."
  }

  /** `$"{typeof(Request)} request cannot be handled."`: the type prints with
      its namespace. */
  const MsgUnsupported: string := "Htc.Mock.Core.Request request cannot be handled."

  // ---------------------------------------------------------------------
  // Final and aggregation requests

  /** `ComputeResult(FinalRequest, inputs)`. */
  function FinalResult(request: Request, inputs: seq<string>): (r: Result<RequestResult<Request>>)
    requires request.Final? && request.Valid()
    ensures r.Err? <==> |inputs| > 0
    ensures r.Err? ==> r.error == Argument(MsgNoInputs(|inputs|))
    ensures r.Ok? ==> r.value.Valid() && r.value.hasResult && r.value.requestId == request.id
    ensures r.Ok? ==> r.value.result == GetResultString(request.id)
  {
    if |inputs| > 0 then Err(Argument(MsgNoInputs(|inputs|)))
    else Ok(ValueResult(request.id, GetResultString(request.id)))
  }

  /** `ComputeResult(AggregationRequest, inputs)`. */
  function AggregationResult(request: Request, inputs: seq<string>): (r: Result<RequestResult<Request>>)
    requires request.Aggregation? && request.Valid()
    ensures r.Err? <==> |inputs| != |request.resultIdsRequired|
    ensures r.Err? ==> r.error == Argument(MsgInputCount(|request.resultIdsRequired|, |inputs|))
    ensures r.Ok? ==> r.value.Valid() && r.value.hasResult && r.value.requestId == request.id
  {
    if |request.resultIdsRequired| != |inputs| then
      Err(Argument(MsgInputCount(|request.resultIdsRequired|, |inputs|)))
    else
      Ok(ValueResult(request.id, GetResultString(GetAggregateString(GetAggregationRes(inputs)))))
  }

  /** The aggregated value depends on the inputs only through their
      concatenation: it is the result string of the aggregate string of the
      checksum of the concatenated inputs. */
  lemma AggregationOfConcat(request: Request, inputs: seq<string>)
    requires request.Aggregation? && request.Valid()
    requires |inputs| == |request.resultIdsRequired|
    ensures AggregationResult(request, inputs).Ok?
    ensures AggregationResult(request, inputs).value.result
         == GetResultString(GetAggregateString(CryptoHashCode.HashValue(ConcatAll(inputs))))
  {
    CryptoHashCode.HashSeqIsConcat(inputs);
  }

  // ---------------------------------------------------------------------
  // Compute requests

  /** What the model needs of `(int)Math.Pow(n, 1.0 / depth)`: a value in
      `[0, n]`, and `n` itself when the depth is 1. */
  ghost predicate RootSpec(root: (int, int) -> int)
  {
    && (forall n: int, d: int :: n >= 2 && d >= 1 ==> 0 <= root(n, d) <= n)
    && (forall n: int :: n >= 2 ==> root(n, 1) == n)
  }

  /** `targetNbRq`: at least 2, and all of `n` when fewer than 2 would remain. */
  function Target(n: int, depth: int, root: (int, int) -> int): (t: int)
    requires n >= 2
    ensures 2 <= t <= n
    ensures t == n || n - t >= 2
  {
    var t := if root(n, depth) > 2 then root(n, depth) else 2;
    if n - t < 2 then n else t
  }

  /** One arm of the `switch` on `remainingRequests`, followed by the
      adjustment that gives everything to the child when fewer than 2
      requests would be left.  The `1` arm throws.  `hash % (remaining - 2)`
      widens the unsigned hash and the `int` to `long`, so it is the
      truncating remainder of a non-negative dividend. */
  function Share(remaining: int, hash: nat): (r: Result<int>)
    ensures r.Err? <==> remaining == 1
    ensures r.Err? ==> r.error == InvalidOperation
  {
    var nb :- if remaining == 0 then Ok(0)
              else if remaining == 1 then Err(InvalidOperation)
              else if remaining == 2 then Ok(2)
              else Ok(2 + TruncRem(hash, remaining - 2));
    Ok(if remaining - nb < 2 then remaining else nb)
  }

  /** The loop invariant: `remainingRequests` is 0 or at least 2.  It
      survives each iteration, so the throwing arm is dead, and a compute
      child always gets at least 2 subrequests. */
  lemma ShareKeepsInvariant(remaining: int, hash: nat)
    requires remaining == 0 || remaining >= 2
    ensures Share(remaining, hash).Ok?
    ensures var nb := Share(remaining, hash).value;
            && (nb == 0 <==> remaining == 0)
            && (nb == 0 || 2 <= nb <= remaining)
            && (remaining - nb == 0 || remaining - nb >= 2)
  {
  }

  /** The child built for share `nb`: a final request when it gets nothing. */
  function Child(id: string, depth: int, i: nat, nb: int): Request
  {
    if nb == 0 then Final(ChildId(id, i)) else Compute(ChildId(id, i), depth - 1, nb)
  }

  /** Iterations `i .. steps - 1` of the loop: the children built and the
      requests left over. */
  function Spawn(id: string, depth: int, i: nat, steps: nat, remaining: int, hash: nat)
    : Result<(seq<Request>, int)>
    decreases steps - i
  {
    if i >= steps then Ok(([], remaining))
    else
      var nb :- Share(remaining, hash);
      var rest :- Spawn(id, depth, i + 1, steps, remaining - nb, hash);
      Ok(([Child(id, depth, i, nb)] + rest.0, rest.1))
  }

  /** `subRequests.Where(r => r is ComputeRequest).Sum(cr => cr.NbSubrequests)`. */
  function NbSum(rs: seq<Request>): int
  {
    if |rs| == 0 then 0
    else (if rs[0].Compute? then rs[0].nbSubrequests else 0) + NbSum(rs[1..])
  }

  lemma {:induction false} NbSumAppend(a: seq<Request>, b: seq<Request>)
    ensures NbSum(a + b) == NbSum(a) + NbSum(b)
    decreases |a|
  {
    if |a| == 0 {
      assert a + b == b;
    } else {
      assert (a + b)[1..] == a[1..] + b;
      NbSumAppend(a[1..], b);
    }
  }

  /** The shape every child has: id `{id}_{k}`, a final request or a compute
      request one level down with at least 2 and at most `bound`
      subrequests. */
  predicate ChildShape(c: Request, id: string, depth: int, k: nat, bound: int)
  {
    && c.id == ChildId(id, k)
    && (c.Final? || (c.Compute? && c.depth == depth - 1 && 2 <= c.nbSubrequests <= bound))
  }

  /** What the loop produces when the invariant holds on entry: no throw, one
      child per iteration, the left-over still 0 or at least 2, and every
      request accounted for. */
  lemma {:induction false} SpawnInvariant(id: string, depth: int, i: nat, steps: nat, remaining: int, hash: nat)
    requires remaining == 0 || remaining >= 2
    requires i <= steps
    ensures Spawn(id, depth, i, steps, remaining, hash).Ok?
    ensures var (kids, left) := Spawn(id, depth, i, steps, remaining, hash).value;
            && |kids| == steps - i
            && (left == 0 || left >= 2)
            && 0 <= left <= remaining
            && NbSum(kids) + left == remaining
            && forall k :: 0 <= k < |kids| ==> ChildShape(kids[k], id, depth, i + k, remaining)
    decreases steps - i
  {
    if i < steps {
      ShareKeepsInvariant(remaining, hash);
      var nb := Share(remaining, hash).value;
      SpawnInvariant(id, depth, i + 1, steps, remaining - nb, hash);
      var rest := Spawn(id, depth, i + 1, steps, remaining - nb, hash).value;
      var kids := [Child(id, depth, i, nb)] + rest.0;
      assert kids[1..] == rest.0;
      forall k | 0 <= k < |kids|
        ensures ChildShape(kids[k], id, depth, i + k, remaining)
      {
        if k > 0 {
          assert kids[k] == rest.0[k - 1];
        }
      }
    }
  }

  /** The loop and the last child: `targetNbRq - 1` children, the last one
      taking whatever the loop left over. */
  function SplitChildren(request: Request, root: (int, int) -> int): Result<seq<Request>>
    requires request.Compute? && request.Valid()
  {
    var n := request.nbSubrequests;
    var target := Target(n, request.depth, root);
    var pair :- Spawn(request.id, request.depth, 0, target - 2, n - target, CryptoHashCode.HashValue(request.id));
    Ok(pair.0 + [Child(request.id, request.depth, target - 2, pair.1)])
  }

  /** The aggregation request that closes a split: named after the checksum
      of the children's result strings, one level down, waiting for the
      children in order. */
  function Aggregator(request: Request, children: seq<Request>): (a: Request)
    requires request.Compute? && request.Valid()
    ensures a.Aggregation? && a.parentId == request.id && a.depth == request.depth - 1
    ensures a.resultIdsRequired == Ids(children)
  {
    var ids := Ids(children);
    Aggregation(GetAggregateString(GetAggregationRes(ResultStrings(ids))), request.id, request.depth - 1, ids)
  }

  /** `ComputeResult(ComputeRequest, inputs)`. */
  function ComputeSplit(request: Request, inputs: seq<string>, root: (int, int) -> int): (r: Result<RequestResult<Request>>)
    requires request.Compute? && request.Valid()
    ensures |inputs| > 0 ==> r == Err(Argument(MsgNoInputs(|inputs|)))
    ensures r.Ok? ==> r.value.Valid() && !r.value.hasResult && r.value.requestId == request.id
  {
    if |inputs| > 0 then Err(Argument(MsgNoInputs(|inputs|)))
    else
      var children :- SplitChildren(request, root);
      Ok(ForwardResult(request.id, children + [Aggregator(request, children)]))
  }

  /** `ComputeResult(Request, inputs)`: dispatch on the concrete type. */
  function ComputeResult(request: Request, inputs: seq<string>, root: (int, int) -> int): (r: Result<RequestResult<Request>>)
    requires request.Valid()
    ensures request.Other? ==> r == Err(Argument(MsgUnsupported))
    ensures r.Ok? ==> r.value.Valid() && r.value.requestId == request.id
  {
    match request
    case Aggregation(_, _, _, _) => AggregationResult(request, inputs)
    case Compute(_, _, _) => ComputeSplit(request, inputs, root)
    case Final(_) => FinalResult(request, inputs)
    case Other(_, _) => Err(Argument(MsgUnsupported))
  }

  /** `GetResult(request, inputs)`: the result with the emulated output. */
  function GetResult(request: Request, inputs: seq<string>, root: (int, int) -> int, output: seq<byte>)
    : (r: Result<RequestResult<Request>>)
    requires request.Valid()
    ensures r.Ok? <==> ComputeResult(request, inputs, root).Ok?
    ensures r.Ok? ==> r.value == WithOutput(ComputeResult(request, inputs, root).value, output)
  {
    var c :- ComputeResult(request, inputs, root);
    Ok(WithOutput(c, output))
  }

  // ---------------------------------------------------------------------
  // Properties of the split

  /** What a compute request's result looks like: children
      `{id}_0 .. {id}_{target-2}` (final requests, or compute requests one
      level down), then exactly one aggregation request, one level down,
      whose parent is the request and which waits for the children in order.
      Every request is accounted for: the request itself, its children and
      their own subrequests add up to `NbSubrequests`. */
  predicate SplitShape(request: Request, subs: seq<Request>, root: (int, int) -> int)
    requires request.Compute? && request.Valid()
  {
    var n := request.nbSubrequests;
    && |subs| >= 2
    && var children := subs[..|subs| - 1];
    && |children| == Target(n, request.depth, root) - 1
    && (forall k :: 0 <= k < |children| ==> ChildShape(children[k], request.id, request.depth, k, n - 2))
    && subs[|subs| - 1].Aggregation?
    && subs[|subs| - 1].parentId == request.id
    && subs[|subs| - 1].depth == request.depth - 1
    && subs[|subs| - 1].resultIdsRequired == Ids(children)
    && 1 + |children| + NbSum(children) == n
  }

  /** The children of a split: `targetNbRq - 1` of them, each of the shape
      above, accounting for every request. */
  lemma SplitChildrenShape(request: Request, root: (int, int) -> int)
    requires request.Compute? && request.Valid()
    ensures SplitChildren(request, root).Ok?
    ensures var children := SplitChildren(request, root).value;
            var n := request.nbSubrequests;
            && |children| == Target(n, request.depth, root) - 1
            && (forall k :: 0 <= k < |children| ==> ChildShape(children[k], request.id, request.depth, k, n - 2))
            && 1 + |children| + NbSum(children) == n
  {
    var n := request.nbSubrequests;
    var target := Target(n, request.depth, root);
    var hash := CryptoHashCode.HashValue(request.id);
    SpawnInvariant(request.id, request.depth, 0, target - 2, n - target, hash);
    var pair := Spawn(request.id, request.depth, 0, target - 2, n - target, hash).value;
    LastChild(request.id, request.depth, pair.0, pair.1, n - target, n - 2);
  }

  /** Appending the last child to the loop's children keeps the shape and
      the count. */
  lemma LastChild(id: string, depth: int, kids: seq<Request>, left: int, remaining: int, bound: int)
    requires left == 0 || left >= 2
    requires 0 <= left <= remaining <= bound
    requires NbSum(kids) + left == remaining
    requires forall k :: 0 <= k < |kids| ==> ChildShape(kids[k], id, depth, k, remaining)
    ensures var children := kids + [Child(id, depth, |kids|, left)];
            && (forall k :: 0 <= k < |children| ==> ChildShape(children[k], id, depth, k, bound))
            && NbSum(children) == remaining
  {
    var last := Child(id, depth, |kids|, left);
    var children := kids + [last];
    NbSumAppend(kids, [last]);
    assert NbSum([last]) == (if last.Compute? then last.nbSubrequests else 0);
    forall k | 0 <= k < |children|
      ensures ChildShape(children[k], id, depth, k, bound)
    {
      if k < |kids| {
        assert children[k] == kids[k];
      }
    }
  }

  /** The split never throws and always has the shape above; the
      `Debug.Assert` on the total holds. */
  lemma ComputeSplitShape(request: Request, root: (int, int) -> int)
    requires request.Compute? && request.Valid()
    ensures ComputeSplit(request, [], root).Ok?
    ensures SplitShape(request, ComputeSplit(request, [], root).value.subRequests, root)
  {
    SplitChildrenShape(request, root);
    var children := SplitChildren(request, root).value;
    var subs := ComputeSplit(request, [], root).value.subRequests;
    assert subs == children + [Aggregator(request, children)];
    assert subs[..|subs| - 1] == children;
  }

  /** With the root of depth 1 equal to `n`, a request at depth 1 has
      `n - 1` children which use up all `n` requests between them, so none
      of them is a compute request. */
  lemma DepthOneAllFinal(request: Request, root: (int, int) -> int)
    requires request.Compute? && request.Valid() && request.depth == 1
    requires RootSpec(root)
    ensures SplitChildren(request, root).Ok?
    ensures var children := SplitChildren(request, root).value;
            forall k :: 0 <= k < |children| ==> children[k].Final?
  {
    SplitChildrenShape(request, root);
    var n := request.nbSubrequests;
    var children := SplitChildren(request, root).value;
    assert Target(n, 1, root) == n;
    forall k | 0 <= k < |children|
      ensures children[k].Final?
    {
      assert ChildShape(children[k], request.id, request.depth, k, n - 2);
      NbSumPositive(children, k);
    }
  }

  /** Every subrequest of a split satisfies its constructor's assertions:
      a non-empty id, a positive depth and at least 2 subrequests for a
      compute child, a depth of at least 0 for the aggregation. */
  lemma SplitChildrenValid(request: Request, root: (int, int) -> int)
    requires request.Compute? && request.Valid()
    requires RootSpec(root)
    ensures ComputeSplit(request, [], root).Ok?
    ensures var subs := ComputeSplit(request, [], root).value.subRequests;
            forall k :: 0 <= k < |subs| ==> subs[k].Valid()
  {
    SplitChildrenShape(request, root);
    if request.depth == 1 {
      DepthOneAllFinal(request, root);
    }
    var n := request.nbSubrequests;
    var children := SplitChildren(request, root).value;
    var subs := ComputeSplit(request, [], root).value.subRequests;
    assert subs == children + [Aggregator(request, children)];
    forall k | 0 <= k < |subs|
      ensures subs[k].Valid()
    {
      if k < |children| {
        assert subs[k] == children[k];
        assert ChildShape(children[k], request.id, request.depth, k, n - 2);
      }
    }
  }

  /** A compute request among requests whose subrequest counts are positive
      contributes to the sum. */
  lemma {:induction false} NbSumPositive(rs: seq<Request>, k: nat)
    requires k < |rs|
    requires forall j :: 0 <= j < |rs| ==> rs[j].Compute? ==> rs[j].nbSubrequests >= 2
    ensures rs[k].Compute? ==> NbSum(rs) >= 2
    ensures NbSum(rs) >= 0
    decreases |rs|
  {
    if k > 0 {
      NbSumPositive(rs[1..], k - 1);
    } else if |rs| > 1 {
      NbSumPositive(rs[1..], 0);
    }
  }
}
