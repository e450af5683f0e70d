/** The Common library's `RequestProcessor`.

    A request is a leaf or not by its depths, its kind and the
    configuration's verdict on its id.  A leaf yields a value; any other
    request fans out into `{id}_{i}` children one level down, ordered by id,
    followed by one aggregation request that waits for all of them.

    `RunConfiguration.IsLeaf` and `RunConfiguration.GetNbSubtasks` are not
    part of the configuration this model has; they come in as `Splitting`. */
module CommonProcessor {
  import opened Wrappers
  import opened Text
  import opened Numerics
  import opened Bytes
  import opened CommonRequests
  import opened RequestResults
  import Ordinal
  import StringExt
  import Encodings
  import CoreProcessor
  import RunConfiguration

  /** The configuration members the processor calls that are not shown: the
      verdict on whether an id is a leaf, and the number of subtasks of an
      id. */
  datatype Splitting = Splitting(isLeaf: string -> bool, nbSubtasks: string -> int)

  /** `GetAggregateString(res)` on the signed checksum: `"Aggregate_{res}"`,
      with a minus sign for a negative `res`. */
  function GetAggregateString(res: int): (s: string)
    ensures |s| > 10 && s[..10] == "Aggregate_" && s[10..] == IntToString(res)
  {
    "Aggregate_" + IntToString(res)
  }

  /** `GetAggregationRes(results)`: the Common sequence checksum. */
  function GetAggregationRes(results: seq<string>): (h: int)
    ensures IsInt32(h)
  {
    StringExt.StreamHashIsStandard(StringExt.WrittenBytes(results));
    StringExt.HashSeq(results)
  }

  /** The value a leaf yields: its own result string without inputs, the
      result string of the aggregate of the inputs otherwise. */
  function LeafValue(request: Request, inputs: seq<string>): (v: string)
    requires request.id != ""
    ensures v != ""
  {
    if |inputs| == 0 then CoreProcessor.GetResultString(request.id)
    else CoreProcessor.GetResultString(GetAggregateString(GetAggregationRes(inputs)))
  }

  /** The leaf rule: a request is split only when it is above the tree's
      depth and is the root, or a plain request the configuration does not
      call a leaf. */
  predicate IsLeaf(request: Request, sp: Splitting)
  {
    !(request.currentDepth < request.depth
      && (request.currentDepth == 0 || (!request.IsAggregationRequest() && !sp.isLeaf(request.id))))
  }

  /** `nbRq`: the configuration's task count for a root at depth 1, otherwise
      one less than the configuration's count for the id, but at least 1
      (the subtraction is in `int`). */
  function NbRq(request: Request, c: RunConfiguration.Config, sp: Splitting): int
  {
    if request.depth == 1 && request.currentDepth == 0 then c.totalNbSubTasks
    else
      var n := Wrap(sp.nbSubtasks(request.id) - 1);
      if n > 1 then n else 1
  }

  /** The child ids `{id}_0 .. {id}_{n-1}`, in index order. */
  function ChildIds(id: string, n: nat): (ids: seq<string>)
    ensures |ids| == n && forall i :: 0 <= i < n ==> ids[i] == CoreProcessor.ChildId(id, i)
  {
    seq(n, i requires 0 <= i < n => CoreProcessor.ChildId(id, i))
  }

  /** `subRequests.Select(sr => sr.Id)`. */
  function Ids(rs: seq<Request>): (r: seq<string>)
    ensures |r| == |rs| && forall i :: 0 <= i < |rs| ==> r[i] == rs[i].id
  {
    seq(|rs|, i requires 0 <= i < |rs| => rs[i].id)
  }

  /** Every duration in the table is non-negative, as the request
      constructor asserts of the durations it receives. */
  predicate DurationsNonNegative(c: RunConfiguration.Config)
  {
    forall i :: 0 <= i < |c.durationSamples| ==> c.durationSamples[i] >= 0
  }

  /** The child of `request` with id `childId` and duration `d`. */
  function ChildTaskWith(request: Request, childId: string, d: int, c: RunConfiguration.Config): (r: Request)
    requires childId != "" && d >= 0 && c.Valid()
    ensures r.Valid() && !r.IsAggregationRequest() && r.id == childId && r.resultIdsRequired == []
    ensures r.durationMs == d && r.memoryUsageKb == c.memory && r.outputSize == c.data
    ensures r.depth == request.depth && r.currentDepth == request.currentDepth + 1
  {
    NewTask(childId, d, c.memory, c.data, request.depth, request.currentDepth + 1)
  }

  /** The child of `request` with id `childId`, its duration drawn at the
      corrected index. */
  function ChildTask(request: Request, childId: string, c: RunConfiguration.Config): (r: Request)
    requires childId != "" && c.Valid() && DurationsNonNegative(c)
    ensures r.Valid() && !r.IsAggregationRequest() && r.id == childId && r.resultIdsRequired == []
    ensures r.durationMs in c.durationSamples
    ensures r.depth == request.depth && r.currentDepth == request.currentDepth + 1
  {
    ChildTaskWith(request, childId, RunConfiguration.CommonTaskDurationMs(c, childId), c)
  }

  /** The child as written: the duration lookup throws for an id whose
      signed checksum gives a negative index. */
  function ChildTaskAsWritten(request: Request, childId: string, c: RunConfiguration.Config): (r: Result<Request>)
    requires childId != "" && c.Valid() && DurationsNonNegative(c)
    ensures r.Ok? <==> RunConfiguration.CommonTaskDurationAsWritten(c, childId).Ok?
    ensures r.Err? ==> r.error == IndexOutOfRange
    ensures r.Ok? ==> r.value == ChildTaskWith(request, childId, RunConfiguration.CommonTaskDurationAsWritten(c, childId).value, c)
  {
    match RunConfiguration.CommonTaskDurationAsWritten(c, childId)
    case Err(e) => Err(e)
    case Ok(d) => Ok(ChildTaskWith(request, childId, d, c))
  }

  /** The children of a split in id order.  `OrderBy` sorts the requests by
      id; each child is a function of its id, so sorting the ids first and
      building the children from them gives the same list. */
  function Children(request: Request, ids: seq<string>, c: RunConfiguration.Config): (rs: seq<Request>)
    requires forall k :: 0 <= k < |ids| ==> ids[k] != ""
    requires c.Valid() && DurationsNonNegative(c)
    ensures |rs| == |ids| && forall k :: 0 <= k < |ids| ==> rs[k] == ChildTask(request, ids[k], c)
    ensures forall k :: 0 <= k < |ids| ==>
              && rs[k].id == ids[k] && !rs[k].IsAggregationRequest() && rs[k].resultIdsRequired == []
              && rs[k].depth == request.depth && rs[k].currentDepth == request.currentDepth + 1
  {
    seq(|ids|, k requires 0 <= k < |ids| => ChildTask(request, ids[k], c))
  }

  /** Every id of `ids` has a duration the written lookup can read. */
  predicate AllReadable(ids: seq<string>, c: RunConfiguration.Config)
    requires c.Valid()
  {
    forall k :: 0 <= k < |ids| ==> RunConfiguration.CommonTaskDurationAsWritten(c, ids[k]).Ok?
  }

  /** The children as written: `ToList` builds them one by one, and the
      first id whose lookup throws ends the split with that exception.
      Every failing lookup throws the same exception, so the result depends
      only on whether some lookup fails. */
  function ChildrenAsWritten(request: Request, ids: seq<string>, c: RunConfiguration.Config): (r: Result<seq<Request>>)
    requires forall k :: 0 <= k < |ids| ==> ids[k] != ""
    requires c.Valid() && DurationsNonNegative(c)
    ensures r.Ok? <==> forall k :: 0 <= k < |ids| ==> ChildTaskAsWritten(request, ids[k], c).Ok?
    ensures r.Err? ==> r.error == IndexOutOfRange
    ensures r.Ok? ==> |r.value| == |ids| && forall k :: 0 <= k < |ids| ==> Ok(r.value[k]) == ChildTaskAsWritten(request, ids[k], c)
  {
    if AllReadable(ids, c) then
      Ok(seq(|ids|, k requires 0 <= k < |ids| => ChildTaskAsWritten(request, ids[k], c).value))
    else
      Err(IndexOutOfRange)
  }

  /** The name of the aggregation that closes a split over `ids`. */
  function AggregateName(ids: seq<string>): (name: string)
    ensures |name| > 10 && name[..10] == "Aggregate_"
  {
    GetAggregateString(GetAggregationRes(CoreProcessor.ResultStrings(ids)))
  }

  /** The aggregation request with duration `d`: a child of `request`
      waiting for the children in order. */
  function AggregatorWith(request: Request, ids: seq<string>, d: int, c: RunConfiguration.Config): (a: Request)
    requires c.Valid() && d >= 0
    requires request.id != ""
    ensures a.Valid() && a.IsAggregationRequest() && a.id == AggregateName(ids) && a.durationMs == d
    ensures a.parentId == request.id && a.resultIdsRequired == ids
    ensures a.depth == request.depth && a.currentDepth == request.currentDepth + 1
  {
    NewRequest(AggregateName(ids), d, c.memory, c.data, ids, request.id, request.depth, request.currentDepth + 1)
  }

  /** The aggregation request that closes a split: named after the checksum
      of the children's result strings, its duration drawn at the corrected
      index. */
  function Aggregator(request: Request, ids: seq<string>, c: RunConfiguration.Config): (a: Request)
    requires c.Valid() && DurationsNonNegative(c)
    requires request.id != ""
    ensures a.Valid() && a.IsAggregationRequest() && a.durationMs in c.durationSamples
    ensures a.parentId == request.id && a.resultIdsRequired == ids
    ensures a.depth == request.depth && a.currentDepth == request.currentDepth + 1
  {
    AggregatorWith(request, ids, RunConfiguration.CommonTaskDurationMs(c, AggregateName(ids)), c)
  }

  /** The aggregation request as written: its duration lookup may throw. */
  function AggregatorAsWritten(request: Request, ids: seq<string>, c: RunConfiguration.Config): (r: Result<Request>)
    requires c.Valid() && DurationsNonNegative(c)
    requires request.id != ""
    ensures r.Ok? <==> RunConfiguration.CommonTaskDurationAsWritten(c, AggregateName(ids)).Ok?
    ensures r.Err? ==> r.error == IndexOutOfRange
    ensures r.Ok? ==> r.value == AggregatorWith(request, ids, RunConfiguration.CommonTaskDurationAsWritten(c, AggregateName(ids)).value, c)
  {
    match RunConfiguration.CommonTaskDurationAsWritten(c, AggregateName(ids))
    case Err(e) => Err(e)
    case Ok(d) => Ok(AggregatorWith(request, ids, d, c))
  }

  /** The ids of the `n` children in ordinal order. */
  function SortedChildIds(id: string, n: nat): (ids: seq<string>)
    ensures |ids| == n && Ordinal.Sorted(ids) && multiset(ids) == multiset(ChildIds(id, n))
    ensures forall k :: 0 <= k < n ==> ids[k] != ""
  {
    var ids := Ordinal.Sort(ChildIds(id, n));
    assert forall k :: 0 <= k < n ==> ids[k] != "" by {
      forall k | 0 <= k < n ensures ids[k] != "" {
        assert ids[k] in multiset(ChildIds(id, n));
      }
    }
    ids
  }

  /** The subrequests of a split into `n` children, with durations drawn
      at the corrected index: the children sorted by id, then their
      aggregation. */
  function Split(request: Request, n: nat, c: RunConfiguration.Config): (subs: seq<Request>)
    requires request.Valid() && c.Valid() && DurationsNonNegative(c)
    ensures |subs| == n + 1
    ensures subs[..n] == Children(request, SortedChildIds(request.id, n), c)
    ensures subs[n] == Aggregator(request, SortedChildIds(request.id, n), c)
  {
    var ids := SortedChildIds(request.id, n);
    Children(request, ids, c) + [Aggregator(request, ids, c)]
  }

  /** The subrequests of a split as written: the children are built before
      the aggregation, and either duration lookup may throw. */
  function SplitAsWritten(request: Request, n: nat, c: RunConfiguration.Config): (r: Result<seq<Request>>)
    requires request.Valid() && c.Valid() && DurationsNonNegative(c)
    ensures r.Ok? <==> SplitReadable(request.id, n, c)
    ensures r.Err? ==> r.error == IndexOutOfRange
    ensures r.Ok? ==> |r.value| == n + 1
  {
    var ids := SortedChildIds(request.id, n);
    match ChildrenAsWritten(request, ids, c)
    case Err(e) => Err(e)
    case Ok(children) =>
      (match AggregatorAsWritten(request, ids, c)
       case Err(e) => Err(e)
       case Ok(a) => Ok(children + [a]))
  }

  /** Every duration lookup of a split into `n` children succeeds as
      written: those of the children and that of their aggregation. */
  predicate SplitReadable(id: string, n: nat, c: RunConfiguration.Config)
    requires c.Valid()
  {
    var ids := SortedChildIds(id, n);
    AllReadable(ids, c) && RunConfiguration.CommonTaskDurationAsWritten(c, AggregateName(ids)).Ok?
  }

  /** `ComputeResult(request, inputs)`, as written: a split throws when a
      duration lookup does. */
  function ComputeResult(request: Request, inputs: seq<string>, c: RunConfiguration.Config, sp: Splitting)
    : (r: Result<RequestResult<Request>>)
    requires request.Valid() && c.Valid() && DurationsNonNegative(c)
    ensures |inputs| != |request.resultIdsRequired|
            ==> r == Err(Argument(CoreProcessor.MsgInputCount(|request.resultIdsRequired|, |inputs|)))
    ensures r.Ok? ==> r.value.Valid() && r.value.requestId == request.id
    ensures r.Ok? ==> (r.value.hasResult <==> IsLeaf(request, sp))
  {
    if |request.resultIdsRequired| != |inputs| then
      Err(Argument(CoreProcessor.MsgInputCount(|request.resultIdsRequired|, |inputs|)))
    else if IsLeaf(request, sp) then
      Ok(ValueResult(request.id, LeafValue(request, inputs)))
    else
      var n := NbRq(request, c, sp);
      if n < 0 then Err(ArgumentOutOfRange)
      else
        match SplitAsWritten(request, n, c)
        case Err(e) => Err(e)
        case Ok(subs) => Ok(ForwardResult(request.id, subs))
  }

  /** `ComputeResult` as evidently intended: the durations are drawn at the
      unsigned index, so no lookup throws. */
  function ComputeResultIntended(request: Request, inputs: seq<string>, c: RunConfiguration.Config, sp: Splitting)
    : (r: Result<RequestResult<Request>>)
    requires request.Valid() && c.Valid() && DurationsNonNegative(c)
    ensures |inputs| != |request.resultIdsRequired|
            ==> r == Err(Argument(CoreProcessor.MsgInputCount(|request.resultIdsRequired|, |inputs|)))
    ensures r.Ok? ==> r.value.Valid() && r.value.requestId == request.id
    ensures r.Ok? ==> (r.value.hasResult <==> IsLeaf(request, sp))
    ensures r != Err(IndexOutOfRange)
  {
    if |request.resultIdsRequired| != |inputs| then
      Err(Argument(CoreProcessor.MsgInputCount(|request.resultIdsRequired|, |inputs|)))
    else if IsLeaf(request, sp) then
      Ok(ValueResult(request.id, LeafValue(request, inputs)))
    else
      var n := NbRq(request, c, sp);
      if n < 0 then Err(ArgumentOutOfRange)
      else
        Ok(ForwardResult(request.id, Split(request, n, c)))
  }

  /** `GetResult(request, inputs)`: the result with the emulated output. */
  function GetResult(request: Request, inputs: seq<string>, c: RunConfiguration.Config, sp: Splitting,
                     output: seq<byte>)
    : (r: Result<RequestResult<Request>>)
    requires request.Valid() && c.Valid() && DurationsNonNegative(c)
    ensures r.Ok? <==> ComputeResult(request, inputs, c, sp).Ok?
    ensures r.Ok? ==> r.value == WithOutput(ComputeResult(request, inputs, c, sp).value, output)
    ensures r.Err? ==> r == ComputeResult(request, inputs, c, sp)
  {
    match ComputeResult(request, inputs, c, sp)
    case Err(e) => Err(e)
    case Ok(res) => Ok(WithOutput(res, output))
  }

  // ---------------------------------------------------------------------
  // Properties

  /** A root above depth 0 is always split; a request at or below the tree's
      depth, or an aggregation below the root, never is. */
  lemma LeafRule(request: Request, sp: Splitting)
    ensures request.currentDepth == 0 && request.depth > 0 ==> !IsLeaf(request, sp)
    ensures request.currentDepth >= request.depth ==> IsLeaf(request, sp)
    ensures request.currentDepth > 0 && request.IsAggregationRequest() ==> IsLeaf(request, sp)
    ensures request.currentDepth > 0 && !request.IsAggregationRequest() && request.currentDepth < request.depth
            ==> (IsLeaf(request, sp) <==> sp.isLeaf(request.id))
  {
  }

  /** What a leaf yields: `{id}_result` without inputs, and with ASCII
      inputs the result string of the aggregate string of the checksum of
      their concatenation. */
  lemma LeafValues(request: Request, inputs: seq<string>, c: RunConfiguration.Config, sp: Splitting)
    requires request.Valid() && c.Valid() && DurationsNonNegative(c)
    requires IsLeaf(request, sp) && |inputs| == |request.resultIdsRequired|
    ensures ComputeResult(request, inputs, c, sp).Ok?
    ensures |inputs| == 0 ==> ComputeResult(request, inputs, c, sp).value.result == request.id + "_result"
    ensures |inputs| > 0 && IsAsciiText(inputs) ==>
            ComputeResult(request, inputs, c, sp).value.result
            == "Aggregate_" + IntToString(StringExt.HashString(ConcatAll(inputs))) + "_result"
  {
    if |inputs| > 0 && IsAsciiText(inputs) {
      StringExt.HashSeqOfAscii(inputs);
    }
  }

  predicate IsAsciiText(inputs: seq<string>)
  {
    Encodings.IsAsciiString(ConcatAll(inputs))
  }

  /** The head request of the tests, at depth 0, is a leaf whose value is
      "HeadId_result". */
  lemma HeadLeafValue(c: RunConfiguration.Config, sp: Splitting)
    requires c.Valid() && DurationsNonNegative(c)
    ensures var head := NewHead(1, 1, 1, 0);
            && ComputeResult(head, [], c, sp).Ok?
            && ComputeResult(head, [], c, sp).value.result == "HeadId_result"
            && ComputeResult(head, [], c, sp).value.requestId == "HeadId"
            && ComputeResult(head, [], c, sp).value.subRequests == []
  {
  }

  /** The fan-out of a split request, as intended: `nbRq` children whose
      ids are `{id}_0 .. {id}_{nbRq-1}` in ordinal order, each a plain
      request one level down, then one aggregation request, one level down,
      whose parent is the request and which waits for the children in
      order. */
  lemma SplitShape(request: Request, c: RunConfiguration.Config, sp: Splitting)
    requires request.Valid() && c.Valid() && DurationsNonNegative(c)
    requires !IsLeaf(request, sp) && request.resultIdsRequired == []
    requires NbRq(request, c, sp) >= 0
    ensures ComputeResultIntended(request, [], c, sp).Ok?
    ensures ComputeResultIntended(request, [], c, sp).value.subRequests == Split(request, NbRq(request, c, sp), c)
    ensures SplitFacts(request, NbRq(request, c, sp), c)
  {
    SplitHasShape(request, NbRq(request, c, sp), c);
  }

  /** The fan-out of a split request as written: it succeeds exactly when
      every duration lookup does, throws `IndexOutOfRange` otherwise, and
      when it succeeds has the shape `SplitShape` describes. */
  lemma SplitShapeAsWritten(request: Request, c: RunConfiguration.Config, sp: Splitting)
    requires request.Valid() && c.Valid() && DurationsNonNegative(c)
    requires !IsLeaf(request, sp) && request.resultIdsRequired == []
    requires NbRq(request, c, sp) >= 0
    ensures var r := ComputeResult(request, [], c, sp);
            && (r.Ok? <==> SplitReadable(request.id, NbRq(request, c, sp), c))
            && (r.Err? ==> r == Err(IndexOutOfRange))
            && (r.Ok? ==> |r.value.subRequests| == NbRq(request, c, sp) + 1
                          && SplitChildFacts(request, NbRq(request, c, sp), r.value.subRequests)
                          && SplitAggregatorFacts(request, NbRq(request, c, sp), r.value.subRequests))
  {
    var n := NbRq(request, c, sp);
    var r := SplitAsWritten(request, n, c);
    if r.Ok? {
      SplitAsWrittenShape(request, n, c);
    }
  }

  /** What `SplitShape` promises of the `n + 1` subrequests. */
  predicate SplitFacts(request: Request, n: nat, c: RunConfiguration.Config)
    requires request.Valid() && c.Valid() && DurationsNonNegative(c)
  {
    var subs := Split(request, n, c);
    SplitChildFacts(request, n, subs) && SplitAggregatorFacts(request, n, subs)
  }

  /** The first `n` subrequests: plain requests one level down, with the
      child ids in ordinal order. */
  predicate SplitChildFacts(request: Request, n: nat, subs: seq<Request>)
    requires |subs| == n + 1
  {
    var ids := Ids(subs[..n]);
    && Ordinal.Sorted(ids)
    && multiset(ids) == multiset(ChildIds(request.id, n))
    && (forall k :: 0 <= k < n ==>
          && !subs[k].IsAggregationRequest() && subs[k].resultIdsRequired == []
          && subs[k].depth == request.depth && subs[k].currentDepth == request.currentDepth + 1)
  }

  /** The last subrequest: the aggregation of the others, one level down. */
  predicate SplitAggregatorFacts(request: Request, n: nat, subs: seq<Request>)
    requires |subs| == n + 1
  {
    && subs[n].IsAggregationRequest() && subs[n].parentId == request.id
    && subs[n].resultIdsRequired == Ids(subs[..n])
    && subs[n].depth == request.depth && subs[n].currentDepth == request.currentDepth + 1
  }

  lemma SplitHasShape(request: Request, n: nat, c: RunConfiguration.Config)
    requires request.Valid() && c.Valid() && DurationsNonNegative(c)
    ensures SplitFacts(request, n, c)
  {
    var subs := Split(request, n, c);
    SplitIds(request, n, c);
    assert SplitChildFacts(request, n, subs);
    assert SplitAggregatorFacts(request, n, subs);
  }

  /** The ids of the first `n` subrequests are the sorted child ids. */
  lemma SplitIds(request: Request, n: nat, c: RunConfiguration.Config)
    requires request.Valid() && c.Valid() && DurationsNonNegative(c)
    ensures Ids(Split(request, n, c)[..n]) == SortedChildIds(request.id, n)
  {
    var subs := Split(request, n, c);
    assert Ids(subs[..n]) == SortedChildIds(request.id, n);
  }

  /** A split built as written has the same shape as the intended one. */
  lemma SplitAsWrittenShape(request: Request, n: nat, c: RunConfiguration.Config)
    requires request.Valid() && c.Valid() && DurationsNonNegative(c)
    requires SplitAsWritten(request, n, c).Ok?
    ensures var subs := SplitAsWritten(request, n, c).value;
            SplitChildFacts(request, n, subs) && SplitAggregatorFacts(request, n, subs)
  {
    var ids := SortedChildIds(request.id, n);
    var subs := SplitAsWritten(request, n, c).value;
    var children := ChildrenAsWritten(request, ids, c).value;
    assert subs[..n] == children;
    forall k | 0 <= k < n
      ensures subs[k] == ChildTaskWith(request, ids[k], RunConfiguration.CommonTaskDurationAsWritten(c, ids[k]).value, c)
    {
      assert Ok(children[k]) == ChildTaskAsWritten(request, ids[k], c);
    }
    assert Ids(subs[..n]) == ids;
  }

  /** The written split agrees with the intended one wherever no checksum
      involved is negative. */
  predicate SplitHashesNonNegative(id: string, n: nat)
  {
    var ids := SortedChildIds(id, n);
    && (forall k :: 0 <= k < n ==> StringExt.HashString(ids[k]) >= 0)
    && StringExt.HashString(AggregateName(ids)) >= 0
  }

  /** The written `ComputeResult` and the intended one: they differ only
      where the written one throws `IndexOutOfRange`, which it does exactly
      for a split with an unreadable duration, or in the durations drawn
      for negative checksums; with no negative checksum they agree. */
  lemma ComputeResultAgrees(request: Request, inputs: seq<string>, c: RunConfiguration.Config, sp: Splitting)
    requires request.Valid() && c.Valid() && DurationsNonNegative(c)
    ensures var r := ComputeResult(request, inputs, c, sp);
            var q := ComputeResultIntended(request, inputs, c, sp);
            && (r == Err(IndexOutOfRange)
                <==> |inputs| == |request.resultIdsRequired| && !IsLeaf(request, sp) && NbRq(request, c, sp) >= 0
                     && !SplitReadable(request.id, NbRq(request, c, sp), c))
            && (r != Err(IndexOutOfRange) ==> r.Ok? == q.Ok?)
            && (r.Err? && r != Err(IndexOutOfRange) ==> r == q)
            && (r.Ok? && r.value.hasResult ==> r == q)
  {
  }

  /** With no negative checksum among the ids a split reads, the written
      `ComputeResult` is the intended one. */
  lemma ComputeResultAgreesNonNegative(request: Request, inputs: seq<string>, c: RunConfiguration.Config, sp: Splitting)
    requires request.Valid() && c.Valid() && DurationsNonNegative(c)
    requires NbRq(request, c, sp) >= 0 ==> SplitHashesNonNegative(request.id, NbRq(request, c, sp))
    ensures ComputeResult(request, inputs, c, sp) == ComputeResultIntended(request, inputs, c, sp)
  {
    var n := NbRq(request, c, sp);
    if |request.resultIdsRequired| == |inputs| && !IsLeaf(request, sp) && n >= 0 {
      SplitAgrees(request, n, c);
    }
  }

  /** A split whose checksums are all non-negative is built the same way
      as written and as intended. */
  lemma SplitAgrees(request: Request, n: nat, c: RunConfiguration.Config)
    requires request.Valid() && c.Valid() && DurationsNonNegative(c)
    requires SplitHashesNonNegative(request.id, n)
    ensures SplitAsWritten(request, n, c) == Ok(Split(request, n, c))
  {
    var ids := SortedChildIds(request.id, n);
    forall k | 0 <= k < n
      ensures ChildTaskAsWritten(request, ids[k], c) == Ok(ChildTask(request, ids[k], c))
    {
      RunConfiguration.CommonTaskDurationAgrees(c, ids[k]);
    }
    RunConfiguration.CommonTaskDurationAgrees(c, AggregateName(ids));
    var children := ChildrenAsWritten(request, ids, c).value;
    assert children == Children(request, ids, c);
  }

  /** A root at depth 1 fans out into the configuration's task count when
      the durations are drawn as intended; as written it does so exactly
      when every duration lookup of the split succeeds. */
  lemma RootFanOut(request: Request, c: RunConfiguration.Config, sp: Splitting)
    requires request.Valid() && c.Valid() && DurationsNonNegative(c)
    requires request.depth == 1 && request.currentDepth == 0 && request.resultIdsRequired == []
    ensures c.totalNbSubTasks >= 0 ==> ComputeResultIntended(request, [], c, sp).Ok?
    ensures c.totalNbSubTasks >= 0 ==> |ComputeResultIntended(request, [], c, sp).value.subRequests| == c.totalNbSubTasks + 1
    ensures c.totalNbSubTasks >= 0 ==>
              (ComputeResult(request, [], c, sp).Ok? <==> SplitReadable(request.id, c.totalNbSubTasks, c))
    ensures c.totalNbSubTasks >= 0 && ComputeResult(request, [], c, sp).Ok? ==>
              |ComputeResult(request, [], c, sp).value.subRequests| == c.totalNbSubTasks + 1
    ensures c.totalNbSubTasks < 0 ==> ComputeResult(request, [], c, sp) == Err(ArgumentOutOfRange)
    ensures c.totalNbSubTasks < 0 ==> ComputeResultIntended(request, [], c, sp) == Err(ArgumentOutOfRange)
  {
    if c.totalNbSubTasks >= 0 {
      SplitShape(request, c, sp);
    }
  }
}
