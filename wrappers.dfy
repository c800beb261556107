/** Optional values and the outcome of a request handler.
    A handler of the controller either answers with a payload (HTTP 200/201)
    or with one of the error statuses it uses (400, 403, 404, 500). */
module Wrappers {

  datatype Option<+T> = None | Some(value: T)

  /** The error responses the controller sends, with their message text. */
  datatype ApiError =
    | BadRequest(message: string)   // 400
    | Forbidden(message: string)    // 403
    | NotFound(message: string)     // 404
    | ServerError(message: string)  // 500, from the handler's catch block

  datatype Result<+T> = Ok(value: T) | Err(error: ApiError)
}
