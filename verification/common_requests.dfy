/** The Common library's single request record.  A request is an
    aggregation exactly when it names a parent; `Depth` is the depth of the
    whole tree and `CurrentDepth` the request's own level in it. */
module CommonRequests {
  import CoreRequests

  datatype Request = Request(
    id: string,
    durationMs: int,
    memoryUsageKb: int,
    outputSize: int,
    resultIdsRequired: seq<string>,
    parentId: string,
    depth: int,
    currentDepth: int)
  {
    /** The constructor's assertions.  The required ids are a sequence here,
        so the assertion that they are not null always holds. */
    predicate Valid()
    {
      id != "" && durationMs >= 0 && memoryUsageKb >= 0 && outputSize >= 0
    }

    /** `IsAggregationRequest`: the parent id is neither null nor empty. */
    predicate IsAggregationRequest()
    {
      parentId != ""
    }
  }

  /** The full constructor: every field stored as given. */
  function NewRequest(id: string, durationMs: int, memoryUsageKb: int, outputSize: int,
                      resultIdsRequired: seq<string>, parentId: string, depth: int, currentDepth: int)
    : (r: Request)
    requires id != "" && durationMs >= 0 && memoryUsageKb >= 0 && outputSize >= 0
    ensures r.Valid()
    ensures r.IsAggregationRequest() <==> parentId != ""
    ensures r.id == id && r.durationMs == durationMs && r.memoryUsageKb == memoryUsageKb && r.outputSize == outputSize
    ensures r.resultIdsRequired == resultIdsRequired && r.parentId == parentId
    ensures r.depth == depth && r.currentDepth == currentDepth
  {
    Request(id, durationMs, memoryUsageKb, outputSize, resultIdsRequired, parentId, depth, currentDepth)
  }

  /** The constructor with an id: no required ids and no parent, so never
      an aggregation. */
  function NewTask(id: string, durationMs: int, memoryUsageKb: int, outputSize: int, depth: int, currentDepth: int)
    : (r: Request)
    requires id != "" && durationMs >= 0 && memoryUsageKb >= 0 && outputSize >= 0
    ensures r.Valid() && !r.IsAggregationRequest()
    ensures r.resultIdsRequired == [] && r.parentId == ""
    ensures r.id == id && r.durationMs == durationMs && r.memoryUsageKb == memoryUsageKb && r.outputSize == outputSize
    ensures r.depth == depth && r.currentDepth == currentDepth
  {
    NewRequest(id, durationMs, memoryUsageKb, outputSize, [], "", depth, currentDepth)
  }

  /** The head constructor: id "HeadId" at level 0. */
  function NewHead(durationMs: int, memoryUsageKb: int, outputSize: int, depth: int): (r: Request)
    requires durationMs >= 0 && memoryUsageKb >= 0 && outputSize >= 0
    ensures r.Valid() && !r.IsAggregationRequest()
    ensures r.id == CoreRequests.HeadId && r.resultIdsRequired == [] && r.parentId == ""
    ensures r.depth == depth && r.currentDepth == 0
    ensures r.durationMs == durationMs && r.memoryUsageKb == memoryUsageKb && r.outputSize == outputSize
  {
    NewTask(CoreRequests.HeadId, durationMs, memoryUsageKb, outputSize, depth, 0)
  }
}
