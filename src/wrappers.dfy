/** Small value wrappers for the error returns of the uploader. */
module Wrappers {

  /** A value that may be absent (a Go `*int` that may be nil). */
  datatype Option<+T> = None | Some(value: T)

  /** A value or an error (a Go `(T, error)` pair). */
  datatype Result<+T, +E> = Success(value: T) | Failure(error: E)

  /** Success without a value, or an error (a Go `error` that may be nil). */
  datatype Outcome<+E> = Pass | Fail(error: E)
}
