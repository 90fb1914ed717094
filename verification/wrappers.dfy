/** Failure-carrying return types used in place of Python exceptions. */
module Wrappers {

  /** An optional value. */
  datatype Option<+T> = None | Some(value: T)

  /** Either a value or the error that a Python call would have raised. */
  datatype Result<+T, +E> = Success(value: T) | Failure(error: E)

  /** The outcome of a call that returns nothing (Python `None`) or raises. */
  datatype Outcome<+E> = Pass | Fail(error: E)
}
