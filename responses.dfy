/**
 * What a request handler hands to the HTTP layer, and the query string it reads.
 * `SuccessResponse.send(res, data, message)` answers with status 200;
 * `ErrorResponse.send(res, message, status, error)` with the given status and an optional
 * detail. `src/utils/ApiResponse.ts`, which wraps these in the JSON envelope, is not part of
 * this model.
 */
module Responses {
  import opened Wrappers

  datatype Response<+T> =
    | Ok(data: T, message: string)
    | Fail(status: int, message: string, detail: Option<string>)
      /** An outcome the handler's own code does not determine (a store call with arguments the
          store rejects or interprets in ways the core does not say). */
    | Unspecified

  /** `req.query`: each parameter given once, as text. */
  type QueryString = map<string, string>

  /** `req.query.name as string`: the text of the parameter, or `undefined`. */
  function Param(query: QueryString, name: string): (r: Option<string>)
    ensures r.Some? <==> name in query
    ensures r.Some? ==> r.value == query[name]
  {
    if name in query then Some(query[name]) else None
  }
}
