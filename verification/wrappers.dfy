/** Failure-carrying result types used in place of Python's `None` and exceptions. */
module Wrappers {

  /** A value that may be absent, like Python's `Optional`. */
  datatype Option<+T> = None | Some(value: T)

  /** Either a value or an error, in place of a function that may raise. */
  datatype Result<+R, +E> = Success(value: R) | Failure(error: E)
}
