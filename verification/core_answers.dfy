/** The later answer types of the Core: a `RequestResult` record holding a
    value or a redirection, and a `RequestAnswer` that either carries the
    value or forwards to subrequests. */
module CoreAnswers {
  import CoreRequests

  /** `record RequestResult(bool HasResult, string Value)`. */
  datatype RequestResult = RequestResult(hasResult: bool, value: string)

  /** `new RequestResult()`. */
  function NoResult(): (r: RequestResult)
    ensures !r.hasResult && r.value == ""
  {
    RequestResult(false, "")
  }

  /** `new RequestResult(value)`. */
  function ResultOf(value: string): (r: RequestResult)
    ensures r.hasResult && r.value == value
  {
    RequestResult(true, value)
  }

  datatype RequestAnswer = RequestAnswer(requestId: string, result: RequestResult, subRequests: seq<CoreRequests.Request>)
  {
    /** The private constructor's assertions: a non-empty id and value, and
        subrequests exactly when there is no final value. */
    predicate Valid()
    {
      && requestId != ""
      && result.value != ""
      && (|subRequests| > 0 <==> !result.hasResult)
    }
  }

  /** `new RequestAnswer(requestId, result)`: the value itself. */
  function ValueAnswer(requestId: string, result: string): (a: RequestAnswer)
    requires requestId != "" && result != ""
    ensures a.Valid() && a.result.hasResult && a.subRequests == []
    ensures a.requestId == requestId && a.result == ResultOf(result)
  {
    RequestAnswer(requestId, RequestResult(true, result), [])
  }

  /** `new RequestAnswer(requestId, resultRedirection, subRequests)`: the
      value names where the final result will be found. */
  function ForwardingAnswer(requestId: string, resultRedirection: string, subRequests: seq<CoreRequests.Request>): (a: RequestAnswer)
    requires requestId != "" && resultRedirection != "" && |subRequests| > 0
    ensures a.Valid() && !a.result.hasResult && a.result.value == resultRedirection
    ensures a.requestId == requestId && a.subRequests == subRequests
  {
    RequestAnswer(requestId, RequestResult(false, resultRedirection), subRequests)
  }

  /** Every valid answer is one of the two public forms, decided by whether
      it has subrequests. */
  lemma AnswerKinds(a: RequestAnswer)
    requires a.Valid()
    ensures a.result.hasResult ==> a == ValueAnswer(a.requestId, a.result.value)
    ensures !a.result.hasResult ==> a == ForwardingAnswer(a.requestId, a.result.value, a.subRequests)
  {
  }
}
