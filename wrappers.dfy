/** Option and Result, the two failure-carrying datatypes the model uses. */
module Wrappers {

  /** A value that may be missing (Python's `None`, or a parser that rejected its input). */
  datatype Option<+T> = None | Some(value: T)

  /** The outcome of something that may raise: the value, or the exception it raised. */
  datatype Result<+T, +E> = Success(value: T) | Failure(error: E)
}
