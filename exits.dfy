/** The CLI's return-or-exit helpers: `check`, `guard_api` and the status-code
    decision of `explain_response`. A call to `sys.exit(1)` is an `Exit` value;
    what is printed before it is not modelled. */
module Exits {

  /** What a helper does: return normally with a value, or end the process. */
  datatype Outcome<T> = Return(value: T) | Exit(status: int)

  /** `check(condition, message)`: exits with status 1 exactly when the
      condition is false. */
  function Check(condition: bool): (r: Outcome<()>)
    ensures r.Exit? <==> !condition
    ensures r.Exit? ==> r.status == 1
  {
    if !condition then Exit(1) else Return(())
  }

  /** The value an API call hands back: its content, or an `APIError`. */
  datatype ContentOrError<T, E> = Content(content: T) | ApiError(error: E)

  /** `guard_api(content_or_error)`: hands back a successful call's content
      unchanged, and exits with status 1 on an `APIError`. */
  function GuardApi<T, E>(v: ContentOrError<T, E>): (r: Outcome<T>)
    ensures r.Return? <==> v.Content?
    ensures r.Return? ==> r.value == v.content
    ensures r.Exit? ==> r.status == 1
  {
    match v
    case ApiError(_) => Exit(1)
    case Content(c) => Return(c)
  }

  /** The parts of an HTTP response that `explain_response` reads. */
  datatype Response = Response(ok: bool, isRedirect: bool, statusCode: int)

  /** The caller-supplied message `explain_response` prints. */
  datatype Message = If2xx | If4xx | IfOthers

  /** The decision `explain_response` takes: which message, then return or exit. */
  datatype Explanation = Explanation(chosen: Message, outcome: Outcome<()>)

  predicate IsClientError(statusCode: int)
  {
    400 <= statusCode <= 499
  }

  /** `explain_response(response, if_2xx, if_4xx, if_others, exit_if_4xx)`. */
  function ExplainResponse(response: Response, exitIf4xx: bool): (e: Explanation)
    // success or redirect: the success message, and no exit
    ensures e.chosen == If2xx <==> response.ok || response.isRedirect
    ensures e.chosen == If2xx ==> e.outcome.Return?
    // any other 4xx: the client-error message
    ensures e.chosen == If4xx <==> !(response.ok || response.isRedirect) && IsClientError(response.statusCode)
    // the client-error message exits iff asked to; the fallback always exits
    ensures e.chosen == If4xx ==> (e.outcome.Exit? <==> exitIf4xx)
    ensures e.chosen == IfOthers ==> e.outcome.Exit?
    ensures e.outcome.Exit? ==> e.outcome.status == 1
  {
    if response.ok || response.isRedirect then
      Explanation(If2xx, Return(()))
    else
      var errmsg := if IsClientError(response.statusCode) then If4xx else IfOthers;
      if IsClientError(response.statusCode) && !exitIf4xx then
        Explanation(errmsg, Return(()))
      else
        Explanation(errmsg, Exit(1))
  }

  /** Asking to exit on a 4xx only ever adds exits. */
  lemma ExitIf4xxOnlyAddsExits(response: Response)
    ensures ExplainResponse(response, false).chosen == ExplainResponse(response, true).chosen
    ensures ExplainResponse(response, false).outcome.Exit? ==> ExplainResponse(response, true).outcome.Exit?
  {
  }

  /** A 404 that is neither ok nor a redirect returns unless asked to exit. */
  lemma NotFoundResponse()
    ensures ExplainResponse(Response(false, false, 404), false) == Explanation(If4xx, Return(()))
    ensures ExplainResponse(Response(false, false, 404), true) == Explanation(If4xx, Exit(1))
  {
  }
}
