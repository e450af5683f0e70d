/** `RequestResult`, what a processor returns for a request: either a value,
    or the subrequests that will produce it.  The Core and the Common library
    define the same class over their own request types; `R` is that type. */
module RequestResults {
  import opened Bytes

  datatype RequestResult<R> = RequestResult(requestId: string, hasResult: bool, result: string,
                                            subRequests: seq<R>, output: seq<byte>)
  {
    /** The private constructor's assertions: a value result has a value and
        no subrequests, a forwarding result has subrequests and no value. */
    predicate Valid()
    {
      && requestId != ""
      && (hasResult <==> |subRequests| == 0)
      && (hasResult <==> result != "")
    }
  }

  /** `new RequestResult(requestId, result)`. */
  function ValueResult<R>(requestId: string, result: string): (r: RequestResult<R>)
    requires requestId != "" && result != ""
    ensures r.Valid() && r.hasResult
    ensures r.requestId == requestId && r.result == result && r.subRequests == [] && r.output == []
  {
    RequestResult(requestId, true, result, [], [])
  }

  /** `new RequestResult(requestId, subRequests)`; the private constructor
      asserts there is at least one subrequest. */
  function ForwardResult<R>(requestId: string, subRequests: seq<R>): (r: RequestResult<R>)
    requires requestId != "" && |subRequests| > 0
    ensures r.Valid() && !r.hasResult
    ensures r.requestId == requestId && r.result == "" && r.subRequests == subRequests && r.output == []
  {
    RequestResult(requestId, false, "", subRequests, [])
  }

  /** `WithOutput(output)`: the same result carrying `output`. */
  function WithOutput<R>(r: RequestResult<R>, output: seq<byte>): (s: RequestResult<R>)
    ensures s.output == output
    ensures s.(output := r.output) == r
    ensures s.Valid() <==> r.Valid()
  {
    r.(output := output)
  }

  /** The invariant in one statement: having a value, having no
      subrequests and having a non-empty result are the same thing, and
      every valid result is one of the two public forms. */
  lemma ResultKinds<R>(r: RequestResult<R>)
    requires r.Valid()
    ensures r.hasResult <==> r.subRequests == []
    ensures r.hasResult <==> r.result != ""
    ensures r.hasResult ==> r == ValueResult(r.requestId, r.result).(output := r.output)
    ensures !r.hasResult ==> r == ForwardResult(r.requestId, r.subRequests).(output := r.output)
  {
  }
}
