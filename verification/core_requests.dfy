/** The Core requests.

    `Request` is abstract in the Core; its three concrete subclasses form a
    closed union here, plus `Other` for any further subclass, which the
    processor and the runner reject.  A C# reference that may be null is an
    `Option` (`None` for null) where the code checks it. */
module CoreRequests {
  import opened Wrappers

  /** The id both parameterless head constructors use. */
  const HeadId: string := "HeadId"

  const MsgEmptyId: string := "id cannot be null or empty"

  datatype Request =
    | Final(id: string)
    | Compute(id: string, depth: int, nbSubrequests: int)
    | Aggregation(id: string, parentId: string, depth: int, resultIdsRequired: seq<string>)
    | Other(id: string, dependencies: seq<string>)
  {
    /** `Dependencies`: the three Core subclasses go through `Request(id)`,
        which leaves it empty. */
    function Dependencies(): seq<string>
    {
      if Other? then dependencies else []
    }

    /** What the constructors guarantee, or assert of their callers. */
    predicate Valid()
    {
      && id != ""
      && (Compute? ==> nbSubrequests > 1 && depth > 0)
      && (Aggregation? ==> depth >= 0)
    }
  }

  /** The state the base class keeps. */
  datatype RequestBase = RequestBase(id: string, dependencies: seq<string>)

  /** `Request(id, dependencies)`: stores both, with no check at all, so an
      empty id is kept. */
  function BaseWith(id: string, dependencies: seq<string>): (r: RequestBase)
    ensures r.id == id && r.dependencies == dependencies
  {
    RequestBase(id, dependencies)
  }

  /** `Request(id)`: a null id throws `ArgumentNullException`, an empty one
      `ArgumentException`; otherwise the dependencies are empty. */
  function BaseOf(id: Option<string>): (r: Result<RequestBase>)
    ensures id == None ==> r == Err(ArgumentNull)
    ensures id == Some("") ==> r == Err(Argument(MsgEmptyId))
    ensures r.Ok? <==> id.Some? && id.value != ""
    ensures r.Ok? ==> r.value.id == id.value && r.value.dependencies == []
  {
    match id
    case None => Err(ArgumentNull)
    case Some(s) =>
      if s == "" then Err(Argument(MsgEmptyId))
      else Ok(BaseWith(s, []))
  }

  /** `new FinalRequest(id)`. */
  function NewFinal(id: Option<string>): (r: Result<Request>)
    ensures r.Ok? <==> id.Some? && id.value != ""
    ensures id == None ==> r == Err(ArgumentNull)
    ensures id == Some("") ==> r == Err(Argument(MsgEmptyId))
    ensures r.Ok? ==> r.value == Final(id.value) && r.value.Valid()
  {
    var b :- BaseOf(id);
    Ok(Final(b.id))
  }

  /** `new FinalRequest()`. */
  function HeadFinal(): (r: Request)
    ensures r.Final? && r.id == HeadId && r.Valid()
  {
    NewFinal(Some(HeadId)).value
  }

  /** `new ComputeRequest(id, depth, nbSubrequests)`: the base constructor
      checks the id, then the constructor asserts more than one subrequest
      and a positive depth. */
  function NewCompute(id: Option<string>, depth: int, nbSubrequests: int): (r: Result<Request>)
    requires nbSubrequests > 1 && depth > 0
    ensures r.Ok? <==> id.Some? && id.value != ""
    ensures id == None ==> r == Err(ArgumentNull)
    ensures id == Some("") ==> r == Err(Argument(MsgEmptyId))
    ensures r.Ok? ==> r.value == Compute(id.value, depth, nbSubrequests) && r.value.Valid()
  {
    var b :- BaseOf(id);
    Ok(Compute(b.id, depth, nbSubrequests))
  }

  /** `new ComputeRequest(depth, nbSubrequests)`. */
  function HeadCompute(depth: int, nbSubrequests: int): (r: Request)
    requires nbSubrequests > 1 && depth > 0
    ensures r == Compute(HeadId, depth, nbSubrequests) && r.Valid()
  {
    NewCompute(Some(HeadId), depth, nbSubrequests).value
  }

  /** `new AggregationRequest(id, parentId, depth, resultIdsRequired)`: the
      parent id is not checked and may be empty; the required ids live only
      in `ResultIdsRequired`, the dependencies stay empty. */
  function NewAggregation(id: Option<string>, parentId: string, depth: int, resultIdsRequired: seq<string>)
    : (r: Result<Request>)
    requires depth >= 0
    ensures r.Ok? <==> id.Some? && id.value != ""
    ensures id == None ==> r == Err(ArgumentNull)
    ensures id == Some("") ==> r == Err(Argument(MsgEmptyId))
    ensures r.Ok? ==> r.value == Aggregation(id.value, parentId, depth, resultIdsRequired)
    ensures r.Ok? ==> r.value.Valid() && r.value.Dependencies() == []
  {
    var b :- BaseOf(id);
    Ok(Aggregation(b.id, parentId, depth, resultIdsRequired))
  }
}
