/** Option and Result, the two failure-carrying values used across the model. */
module Wrappers {

  /** A value that may be absent, as `os.getenv` returns `None` for an unset variable. */
  datatype Option<+T> = None | Some(value: T)

  /** The outcome of an operation that may raise: `Failure` carries the exception. */
  datatype Result<+R, +E> = Success(value: R) | Failure(error: E)
}
