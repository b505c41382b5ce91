/** Optional values and the HTTP outcomes of the job board's endpoints. */
module Outcomes {

  datatype Option<T> = None | Some(value: T)

  /** The failure classes the handlers answer with; all of them carry a JSON
      `error` message in the source, kept here only where a client tells
      them apart. */
  datatype Failure =
    | BadRequest(message: string)   // 400
    | Unauthorized                  // 401
    | NotFound                      // 404
    | Internal                      // 500: a database or file-system exception

  /** The answer of one request: a body, or a failure. */
  datatype Reply<T> = Done(value: T) | Failed(failure: Failure)

  function StatusCode(f: Failure): nat
  {
    match f
    case BadRequest(_) => 400
    case Unauthorized => 401
    case NotFound => 404
    case Internal => 500
  }
}
