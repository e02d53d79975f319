/**
 * The response envelope `Response<T>`: the status code of one HTTP exchange
 * and the decoded body (`null` for an empty body).  It is immutable, and its
 * two readers are total: they never throw, they answer "no value" or a
 * fallback instead.  The type parameter `T` is erased at run time, so the
 * body is a plain JavaScript value here.
 */
module Responses {
  import opened Wrappers
  import opened JsValues

  /** The message `getError` falls back to when none is given. */
  const DefaultFallback: string := "Unknown error"

  /** The error record `{code: 'Unknown', message}` that `getError` makes up. */
  function SyntheticError(message: string): (e: Value)
    ensures e.Obj? && e.Truthy()
    ensures e.Member("code") == Str("Unknown")
    ensures e.Member("message") == Str(message)
  {
    Obj(map["code" := Str("Unknown"), "message" := Str(message)])
  }

  datatype Response = Response(statusCode: int, result: Value)
  {
    /**
     * `get(code?)`: the body, only when an expected code is given, is not 0
     * (`!code` is true for 0), equals the status code, and the body is not
     * `null`/`undefined`.  `None` stands for the returned `undefined`.
     */
    function Get(code: Option<int>): (r: Option<Value>)
      ensures r.Some? <==> code.Some? && code.value != 0 && code.value == statusCode && !result.IsNullish()
      ensures r.Some? ==> r.value == result
    {
      if code.None? || code.value == 0 || code.value != statusCode then None
      else if result.IsNullish() then None
      else Some(result)
    }

    /**
     * `getError(fallbackMessage = 'Unknown error')`: a truthy body is
     * returned as it is (taken to be an error record); an absent or falsy
     * body gives the made-up record carrying the fallback message.
     */
    function GetError(fallbackMessage: string := DefaultFallback): (e: Value)
      ensures result.Truthy() ==> e == result
      ensures !result.Truthy() ==> e == SyntheticError(fallbackMessage)
      ensures e.Truthy()
    {
      if !result.IsNullish() then
        if result.Truthy() then result else SyntheticError(fallbackMessage)
      else SyntheticError(fallbackMessage)
    }
  }

  /** A response yields its body for at most one expected status code. */
  lemma GetAtMostOneCode(r: Response, a: int, b: int)
    ensures r.Get(Some(a)).Some? && r.Get(Some(b)).Some? ==> a == b
  {
  }

  /** Without an expected code, or with the code 0, `get` never yields the body. */
  lemma GetNeedsCode(r: Response)
    ensures r.Get(None) == None && r.Get(Some(0)) == None
  {
  }

  /**
   * When `get(code)` yields a truthy body, `getError` reads the same body:
   * a 409 conflict payload that a caller extracts with `get(409)` is exactly
   * what `getError` would have returned.
   */
  lemma GetErrorAgreesWithGet(r: Response, code: Option<int>, fallback: string)
    requires r.Get(code).Some? && r.Get(code).value.Truthy()
    ensures r.GetError(fallback) == r.Get(code).value
  {
  }

  /** An empty body gives an error record whose message is the fallback. */
  lemma GetErrorOfEmptyBody(r: Response, fallback: string)
    requires r.result.IsNullish()
    ensures r.GetError(fallback).Member("message") == Str(fallback)
    ensures r.GetError().Member("message") == Str(DefaultFallback)
    ensures r.GetError().Member("code") == Str("Unknown")
  {
  }

  /**
   * A truthy body that is not an error record is returned unchanged, so the
   * result of `getError` need not carry a message.
   */
  lemma GetErrorMayLackMessage(r: Response, fallback: string)
    requires r.result.Truthy() && !r.result.Obj?
    ensures r.GetError(fallback) == r.result
    ensures r.GetError(fallback).Member("message") == Undefined
  {
  }
}
