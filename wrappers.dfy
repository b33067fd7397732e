/** Optional values and results, shared by every module of the model. */
module Wrappers {

  /** A value that may be absent (Python's None, JavaScript's undefined). */
  datatype Option<+T> = None | Some(value: T)

  /** Either a value or an error (an HTTPException raised by a handler). */
  datatype Result<+T, +E> = Success(value: T) | Failure(error: E)

  /** An HTTP error response: the status code and the `detail` message. */
  datatype HttpError = HttpError(status: int, detail: string)
}
