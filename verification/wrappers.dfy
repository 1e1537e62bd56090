/** Option and Result values shared by every module of the model. */
module Wrappers {

  datatype Option<T> = None | Some(value: T)
  {
    function GetOr(default: T): (r: T)
      ensures Some? ==> r == value
      ensures None? ==> r == default
    {
      match this
      case None => default
      case Some(v) => v
    }
  }

  /** A computation that either succeeds or fails with an error value. */
  datatype Result<T, E> = Ok(value: T) | Err(error: E)

  /** An HTTP error as raised by the FastAPI routers (status code and detail text). */
  datatype HttpError = HttpError(status: int, detail: string)
}
