/** Failure-carrying values shared by every module of the model. */
module Wrappers {

  /** A value that may be absent: Python's `None` / a missing dict entry, JavaScript's `null`. */
  datatype Option<+T> = None | Some(value: T) {
    function GetOr(default: T): T {
      match this
      case Some(v) => v
      case None => default
    }
  }

  /** The outcome of an operation that can fail with an error of type `E`. */
  datatype Result<+T, +E> = Ok(value: T) | Err(error: E)

  /** HTTP status codes raised by the backend routers (400, 401, 403, 404, 422 and 500). */
  datatype HttpError = BadRequest | Unauthorized | Forbidden | NotFound | Unprocessable | InternalError
}
