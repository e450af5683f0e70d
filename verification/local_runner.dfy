/** The local request runners: a sequential evaluator of a request tree.

    A request is processed by asking the processor for its result.  A final
    or aggregation request's value goes into a result cache that is only
    ever added to; a compute request's subrequests are processed one after
    the other, the aggregation last, and the compute request's value is the
    one its aggregation wrote under the compute request's id.  The runner
    reports a `Start` event per processed request and `Spawning` events for
    the subrequests it launches.

    The Core and the Common runner differ only in how they report spawning
    and find the aggregation request; `Runner` says which one runs.  Both
    run over the Core requests and the Core processor, the Common copies of
    the request subclasses being stale.  Only the sequential branch is
    modelled. */
module LocalRunner {
  import opened Wrappers
  import opened CoreRequests
  import opened RequestResults
  import CP = CoreProcessor
  import RunConfiguration

  datatype Runner = CoreRunner | CommonRunner

  /** `StartRequestProcessingEvent(request)` and `SpawningRequestEvent(count)`. */
  datatype Event = Start(id: string) | Spawning(count: int)

  /** The runner's state: the result cache and the events raised so far. */
  datatype State = State(results: map<string, string>, events: seq<Event>)

  /** `$"{typeof(Request)} ..."`: the type prints with its namespace. */
  function MsgUnsupported(v: Runner): string
  {
    match v
    case CoreRunner => "Htc.Mock.Core.Request != supported."
    case CommonRunner => "Htc.Mock.Common.Request is not supported."
  }

  /** `ConcurrentDictionary.TryAdd`: the first write of a key wins. */
  function TryAdd(m: map<string, string>, key: string, value: string): (r: map<string, string>)
    ensures key in r && r[key] == (if key in m then m[key] else value)
    ensures forall k :: k in m ==> k in r && r[k] == m[k]
    ensures forall k :: k in r ==> k in m || k == key
  {
    if key in m then m else m[key := value]
  }

  /** `ids.Select(id => results[id])`: a missing key throws. */
  function Lookup(m: map<string, string>, ids: seq<string>): (r: Result<seq<string>>)
    ensures r.Ok? <==> forall i :: 0 <= i < |ids| ==> ids[i] in m
    ensures r.Err? ==> r.error == KeyNotFound
    ensures r.Ok? ==> |r.value| == |ids| && forall i :: 0 <= i < |ids| ==> r.value[i] == m[ids[i]]
  {
    if forall i :: 0 <= i < |ids| ==> ids[i] in m then Ok(seq(|ids|, i requires 0 <= i < |ids| => m[ids[i]]))
    else Err(KeyNotFound)
  }

  /** The subrequests that are not aggregation requests, in order. */
  function NonAggregations(rs: seq<Request>): (r: seq<Request>)
    ensures forall k :: 0 <= k < |r| ==> r[k] in rs && !r[k].Aggregation?
  {
    if |rs| == 0 then []
    else if rs[|rs| - 1].Aggregation? then NonAggregations(rs[..|rs| - 1])
    else NonAggregations(rs[..|rs| - 1]) + [rs[|rs| - 1]]
  }

  /** The aggregation subrequests, in order. */
  function Aggregations(rs: seq<Request>): (r: seq<Request>)
    ensures forall k :: 0 <= k < |r| ==> r[k] in rs && r[k].Aggregation?
  {
    if |rs| == 0 then []
    else if rs[|rs| - 1].Aggregation? then Aggregations(rs[..|rs| - 1]) + [rs[|rs| - 1]]
    else Aggregations(rs[..|rs| - 1])
  }

  /** The aggregation request each runner goes on with.  The Core runner
      keeps the last one its filter saw, or null, which the dispatch rejects;
      the Common runner's `Single()` throws unless there is exactly one. */
  function AggregationToRun(v: Runner, rs: seq<Request>): (r: Result<Request>)
    ensures r.Ok? ==> r.value in rs && r.value.Aggregation?
    ensures v == CommonRunner ==> (r.Ok? <==> |Aggregations(rs)| == 1)
    ensures v == CoreRunner ==> (r.Ok? <==> |Aggregations(rs)| > 0)
    ensures r.Err? ==> r.error == (if v == CoreRunner then Argument(MsgUnsupported(v)) else InvalidOperation)
  {
    var aggs := Aggregations(rs);
    match v
    case CoreRunner => if |aggs| == 0 then Err(Argument(MsgUnsupported(v))) else Ok(aggs[|aggs| - 1])
    case CommonRunner => if |aggs| == 1 then Ok(aggs[0]) else Err(InvalidOperation)
  }

  /** The measure the recursion descends on: a compute request's number of
      subrequests, which its compute children's numbers stay below. */
  function Weight(r: Request): nat
  {
    if r.Compute? && r.nbSubrequests > 0 then r.nbSubrequests else 0
  }

  function Started(st: State, id: string): State
  {
    st.(events := st.events + [Start(id)])
  }

  function Spawned(st: State, count: int): State
  {
    st.(events := st.events + [Spawning(count)])
  }

  /** `ProcessRequest(request, false)`: the value of the request and the
      state after processing it and everything below it. */
  function Process(v: Runner, request: Request, st: State, root: (int, int) -> int): Result<(string, State)>
    requires request.Valid() && CP.RootSpec(root)
    decreases Weight(request), 2
  {
    match request
    case Final(id) =>
      var st1 := Started(st, id);
      (match CP.GetResult(request, [], root, [])
       case Err(e) => Err(e)
       case Ok(res) => Ok((res.result, st1.(results := TryAdd(st1.results, id, res.result)))))
    case Aggregation(id, parentId, _, ids) =>
      var st1 := Started(st, id);
      var inputs :- Lookup(st1.results, ids);
      (match CP.GetResult(request, inputs, root, [])
       case Err(e) => Err(e)
       case Ok(res) =>
         var m := TryAdd(TryAdd(st1.results, id, res.result), parentId, res.result);
         Ok((res.result, st1.(results := m))))
    case Compute(id, _, n) =>
      (match CP.GetResult(request, [], root, [])
       case Err(e) => Err(e)
       case Ok(res) =>
         SubRequestsBelow(request, root);
         RunSubRequests(v, request, Started(st, id), root, res.subRequests))
    case Other(_, _) =>
      Err(Argument(MsgUnsupported(v)))
  }

  /** A compute request's subrequests: the others first, then the
      aggregation, then the value the aggregation cached under the compute
      request's id. */
  function RunSubRequests(v: Runner, request: Request, st: State, root: (int, int) -> int, subs: seq<Request>)
    : Result<(string, State)>
    requires request.Compute? && request.Valid() && CP.RootSpec(root)
    requires forall k :: 0 <= k < |subs| ==> subs[k].Valid() && Weight(subs[k]) < request.nbSubrequests
    decreases Weight(request), 1
  {
    var deps := NonAggregations(subs);
    var st2 :- ProcessAll(v, deps, if v == CommonRunner then Spawned(st, |deps|) else st, root, request.nbSubrequests);
    var agg :- AggregationToRun(v, subs);
    var last :- Process(v, agg, Spawned(st2, 1), root);
    if request.id in last.1.results then Ok((last.1.results[request.id], last.1)) else Err(KeyNotFound)
  }

  /** The `foreach` over the non-aggregation subrequests; the Core runner
      raises `Spawning(1)` before each. */
  function ProcessAll(v: Runner, rs: seq<Request>, st: State, root: (int, int) -> int, bound: nat): Result<State>
    requires forall k :: 0 <= k < |rs| ==> rs[k].Valid() && Weight(rs[k]) < bound
    requires CP.RootSpec(root)
    decreases bound, 0, |rs|
  {
    if |rs| == 0 then Ok(st)
    else
      var done :- Process(v, rs[0], if v == CoreRunner then Spawned(st, 1) else st, root);
      ProcessAll(v, rs[1..], done.1, root, bound)
  }

  /** Every subrequest of a compute request satisfies its constructor's
      assertions and has fewer subrequests of its own. */
  lemma SubRequestsBelow(request: Request, root: (int, int) -> int)
    requires request.Compute? && request.Valid() && CP.RootSpec(root)
    ensures CP.GetResult(request, [], root, []).Ok?
    ensures var subs := CP.GetResult(request, [], root, []).value.subRequests;
            forall k :: 0 <= k < |subs| ==> subs[k].Valid() && Weight(subs[k]) < request.nbSubrequests
  {
    CP.ComputeSplitShape(request, root);
    CP.SplitChildrenValid(request, root);
    var subs := CP.ComputeSplit(request, [], root).value.subRequests;
    var n := request.nbSubrequests;
    forall k | 0 <= k < |subs|
      ensures Weight(subs[k]) < n
    {
      if k < |subs| - 1 {
        assert subs[k] == subs[..|subs| - 1][k];
        assert CP.ChildShape(subs[k], request.id, request.depth, k, n - 2);
      }
    }
  }

  /** What the runner sees of a compute request's subrequests: children
      that are final or compute requests, then their aggregation, the whole
      adding up to the compute request's number of subrequests. */
  lemma SubRequestsSplit(request: Request, root: (int, int) -> int)
    requires request.Compute? && request.Valid() && CP.RootSpec(root)
    ensures CP.GetResult(request, [], root, []).Ok?
    ensures var subs := CP.GetResult(request, [], root, []).value.subRequests;
            |subs| >= 2 && ComputeChildren(request, subs)
  {
    CP.ComputeSplitShape(request, root);
    CP.SplitChildrenValid(request, root);
    var subs := CP.ComputeSplit(request, [], root).value.subRequests;
    var children := subs[..|subs| - 1];
    forall k | 0 <= k < |children|
      ensures children[k].Valid() && (children[k].Final? || children[k].Compute?)
    {
      assert children[k] == subs[k];
    }
    assert subs == children + [subs[|subs| - 1]];
    NonAggregationsOfSplit(children, subs[|subs| - 1]);
  }

  /** The subrequests seen by the runner: valid children that are final or
      compute requests, then their aggregation, the whole adding up to the
      compute request's number of subrequests. */
  predicate ComputeChildren(request: Request, subs: seq<Request>)
    requires request.Compute? && |subs| >= 2
  {
    var children := subs[..|subs| - 1];
    var agg := subs[|subs| - 1];
    && (forall k :: 0 <= k < |children| ==> children[k].Valid() && (children[k].Final? || children[k].Compute?))
    && NonAggregations(subs) == children
    && Aggregations(subs) == [agg]
    && agg.Aggregation? && agg.parentId == request.id && agg.resultIdsRequired == CP.Ids(children)
    && 1 + |children| + CP.NbSum(children) == request.nbSubrequests
  }

  lemma NonAggregationsOfSplit(children: seq<Request>, agg: Request)
    requires forall k :: 0 <= k < |children| ==> !children[k].Aggregation?
    requires agg.Aggregation?
    ensures NonAggregations(children + [agg]) == children
    ensures Aggregations(children + [agg]) == [agg]
  {
    assert (children + [agg])[..|children|] == children;
    NoAggregations(children);
  }

  /** Without aggregation requests, the filters keep everything and nothing. */
  lemma {:induction false} NoAggregations(rs: seq<Request>)
    requires forall k :: 0 <= k < |rs| ==> !rs[k].Aggregation?
    ensures NonAggregations(rs) == rs
    ensures Aggregations(rs) == []
    decreases |rs|
  {
    if |rs| > 0 {
      NoAggregations(rs[..|rs| - 1]);
      assert rs == rs[..|rs| - 1] + [rs[|rs| - 1]];
    }
  }

  // ---------------------------------------------------------------------
  // Counting events

  /** Number of `Start` events: the requests processed. */
  function Starts(es: seq<Event>): nat
  {
    if |es| == 0 then 0 else Starts(es[..|es| - 1]) + (if es[|es| - 1].Start? then 1 else 0)
  }

  /** Sum of the `Spawning` counts: the subrequests launched. */
  function Spawns(es: seq<Event>): int
  {
    if |es| == 0 then 0 else Spawns(es[..|es| - 1]) + (if es[|es| - 1].Spawning? then es[|es| - 1].count else 0)
  }

  /** The cache only grows: every key keeps its value. */
  predicate Extends(m: map<string, string>, m': map<string, string>)
  {
    forall k :: k in m ==> k in m' && m'[k] == m[k]
  }

  /** What processing a request costs in events: one start per request of
      its tree and one spawn per request below it. */
  function TreeStarts(request: Request): nat
  {
    if request.Compute? then Weight(request) + 1 else 1
  }

  function TreeSpawns(request: Request): nat
  {
    Weight(request)
  }

  /** Sums of the above over a list of requests. */
  function ListStarts(rs: seq<Request>): nat
  {
    if |rs| == 0 then 0 else TreeStarts(rs[0]) + ListStarts(rs[1..])
  }

  /** The conservation behind the test's counts: processing a final or
      compute request never fails and leaves its value cached under its id;
      an aggregation whose inputs are cached does the same, under its parent
      too; the cache only grows; and the events add one start for every
      request of the tree and spawnings summing to the requests below the
      root. */
  lemma {:induction false} ProcessCounts(v: Runner, request: Request, st: State, root: (int, int) -> int)
    requires request.Valid() && CP.RootSpec(root) && !request.Other?
    requires request.Aggregation? ==> forall i :: 0 <= i < |request.resultIdsRequired| ==> request.resultIdsRequired[i] in st.results
    ensures Process(v, request, st, root).Ok?
    ensures var st' := Process(v, request, st, root).value.1;
            && Extends(st.results, st'.results)
            && request.id in st'.results
            && (request.Aggregation? ==> request.parentId in st'.results)
            && Starts(st'.events) == Starts(st.events) + TreeStarts(request)
            && Spawns(st'.events) == Spawns(st.events) + TreeSpawns(request)
    decreases Weight(request), 2
  {
    if request.Compute? {
      SubRequestsBelow(request, root);
      SubRequestsSplit(request, root);
      var subs := CP.GetResult(request, [], root, []).value.subRequests;
      RunSubRequestsCounts(v, request, Started(st, request.id), root, subs);
    }
  }

  /** Running the subrequests of a compute request never fails, leaves the
      compute request's value cached, and raises one start and one spawning
      per request below the compute request. */
  lemma {:induction false} RunSubRequestsCounts(v: Runner, request: Request, st: State, root: (int, int) -> int,
                                               subs: seq<Request>)
    requires request.Compute? && request.Valid() && CP.RootSpec(root)
    requires forall k :: 0 <= k < |subs| ==> subs[k].Valid() && Weight(subs[k]) < request.nbSubrequests
    requires |subs| >= 2 && ComputeChildren(request, subs)
    ensures RunSubRequests(v, request, st, root, subs).Ok?
    ensures var st' := RunSubRequests(v, request, st, root, subs).value.1;
            && Extends(st.results, st'.results)
            && request.id in st'.results
            && Starts(st'.events) == Starts(st.events) + request.nbSubrequests
            && Spawns(st'.events) == Spawns(st.events) + request.nbSubrequests
    decreases Weight(request), 1
  {
    var n := request.nbSubrequests;
    var children := subs[..|subs| - 1];
    var agg := subs[|subs| - 1];
    forall k | 0 <= k < |children|
      ensures Weight(children[k]) < n
    {
      assert children[k] == subs[k];
    }
    var st1 := if v == CommonRunner then Spawned(st, |children|) else st;
    ProcessAllCounts(v, children, st1, root, n);
    var st2 := ProcessAll(v, children, st1, root, n).value;
    var st3 := Spawned(st2, 1);
    assert forall i :: 0 <= i < |agg.resultIdsRequired| ==> agg.resultIdsRequired[i] in st3.results by {
      forall i | 0 <= i < |agg.resultIdsRequired|
        ensures agg.resultIdsRequired[i] in st3.results
      {
        assert agg.resultIdsRequired[i] == children[i].id;
      }
    }
    assert agg.Valid();
    assert AggregationToRun(v, subs) == Ok(agg);
    ProcessCounts(v, agg, st3, root);
    ListStartsOfChildren(children);
  }

  /** The `foreach` over children never fails, caches every child, and adds
      the children's events, plus one spawn per child for the Core runner. */
  lemma {:induction false} ProcessAllCounts(v: Runner, rs: seq<Request>, st: State, root: (int, int) -> int, bound: nat)
    requires forall k :: 0 <= k < |rs| ==> rs[k].Valid() && Weight(rs[k]) < bound && (rs[k].Final? || rs[k].Compute?)
    requires CP.RootSpec(root)
    ensures ProcessAll(v, rs, st, root, bound).Ok?
    ensures var st' := ProcessAll(v, rs, st, root, bound).value;
            && Extends(st.results, st'.results)
            && (forall k :: 0 <= k < |rs| ==> rs[k].id in st'.results)
            && Starts(st'.events) == Starts(st.events) + ListStarts(rs)
            && Spawns(st'.events) == Spawns(st.events) + ListStarts(rs) - |rs| + (if v == CoreRunner then |rs| else 0)
    decreases bound, 0, |rs|
  {
    if |rs| > 0 {
      var st0 := if v == CoreRunner then Spawned(st, 1) else st;
      ProcessCounts(v, rs[0], st0, root);
      var done := Process(v, rs[0], st0, root).value.1;
      ProcessAllCounts(v, rs[1..], done, root, bound);
      var st' := ProcessAll(v, rs, st, root, bound).value;
      forall k | 0 <= k < |rs|
        ensures rs[k].id in st'.results
      {
        if k > 0 {
          assert rs[k] == rs[1..][k - 1];
        }
      }
    }
  }

  /** For the children of a split, the starts of their trees are one per
      child plus their subrequest counts. */
  lemma {:induction false} ListStartsOfChildren(rs: seq<Request>)
    requires forall k :: 0 <= k < |rs| ==> rs[k].Valid() && (rs[k].Final? || rs[k].Compute?)
    ensures ListStarts(rs) == |rs| + CP.NbSum(rs)
    decreases |rs|
  {
    if |rs| > 0 {
      ListStartsOfChildren(rs[1..]);
    }
  }

  // ---------------------------------------------------------------------
  // The runs of the tests

  /** Running the default head request from an empty cache: it never fails,
      one more request is processed than spawned, and exactly the
      configuration's task count is spawned when there are levels (none
      without levels). */
  lemma HeadRequestCounts(v: Runner, c: RunConfiguration.Config, root: (int, int) -> int)
    requires c.Valid() && c.HasHeadRequest() && CP.RootSpec(root)
    ensures Process(v, RunConfiguration.DefaultHeadRequest(c), State(map[], []), root).Ok?
    ensures var st := Process(v, RunConfiguration.DefaultHeadRequest(c), State(map[], []), root).value.1;
            && Starts(st.events) == Spawns(st.events) + 1
            && Spawns(st.events) == (if c.subTasksLevels == 0 then 0 else c.totalNbSubTasks)
  {
    ProcessCounts(v, RunConfiguration.DefaultHeadRequest(c), State(map[], []), root);
  }

  /** The `Minimal` configuration has no levels: its head request is a final
      request whose value is "HeadId_result", processed once. */
  lemma MinimalRun(v: Runner, fp: RunConfiguration.FloatingPoint, root: (int, int) -> int)
    requires CP.RootSpec(root)
    ensures var c := RunConfiguration.Minimal(fp);
            Process(v, RunConfiguration.DefaultHeadRequest(c), State(map[], []), root)
            == Ok(("HeadId_result", State(map["HeadId" := "HeadId_result"], [Start("HeadId")])))
  {
    var c := RunConfiguration.Minimal(fp);
    assert RunConfiguration.DefaultHeadRequest(c) == Final(HeadId);
    FinalStep(v, HeadId, State(map[], []), root);
    assert [] + [Start(HeadId)] == [Start("HeadId")];
    assert HeadId + "_result" == "HeadId_result";
    assert TryAdd(map[], HeadId, "HeadId_result") == map[][HeadId := "HeadId_result"];
  }

  /** A request of any other type is rejected before anything happens. */
  lemma UnsupportedRequest(v: Runner, id: string, deps: seq<string>, st: State, root: (int, int) -> int)
    requires id != "" && CP.RootSpec(root)
    ensures Process(v, Other(id, deps), st, root) == Err(Argument(MsgUnsupported(v)))
  {
  }

  /** An aggregation whose inputs are not all cached throws
      `KeyNotFoundException`; otherwise its value is cached under its id and
      its parent's id unless they are already there. */
  lemma AggregationStep(v: Runner, request: Request, st: State, root: (int, int) -> int)
    requires request.Aggregation? && request.Valid() && CP.RootSpec(root)
    ensures (exists i :: 0 <= i < |request.resultIdsRequired| && request.resultIdsRequired[i] !in st.results)
            ==> Process(v, request, st, root) == Err(KeyNotFound)
    ensures (forall i :: 0 <= i < |request.resultIdsRequired| ==> request.resultIdsRequired[i] in st.results)
            ==> var inputs := Lookup(st.results, request.resultIdsRequired).value;
                var value := CP.AggregationResult(request, inputs).value.result;
                Process(v, request, st, root)
                == Ok((value, State(TryAdd(TryAdd(st.results, request.id, value), request.parentId, value),
                                    st.events + [Start(request.id)])))
  {
  }

  /** A final request's value is `{id}_result`, cached under its id unless
      the id is already there. */
  lemma FinalStep(v: Runner, id: string, st: State, root: (int, int) -> int)
    requires id != "" && CP.RootSpec(root)
    ensures Process(v, Final(id), st, root)
            == Ok((id + "_result", State(TryAdd(st.results, id, id + "_result"), st.events + [Start(id)])))
  {
  }
}
