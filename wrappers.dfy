/** The optional-value and result wrappers used across the model. */
module Wrappers {

  /** A value that may be absent (Python's `False` placeholder before a value is set). */
  datatype Option<T> = None | Some(value: T)

  /** An operation that either succeeds with a value or raises an error. */
  datatype Result<T, E> = Success(value: T) | Failure(error: E)
}
