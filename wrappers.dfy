/** Failure-compatible wrappers used across the model. */
module Wrappers {

  /** A value that may be absent (a parse that failed). */
  datatype Option<+T> = None | Some(value: T)

  /** A value or the error that was raised instead of it. */
  datatype Result<+T, +E> = Success(value: T) | Failure(error: E)
}
