/** Option and Result, the two failure-carrying datatypes used throughout the model. */
module Wrappers {

  /** Python's `None` or a value. */
  datatype Option<+T> = None | Some(value: T)

  /** A value, or the exception that Python would raise instead of returning it. */
  datatype Result<+T, +E> = Success(value: T) | Failure(error: E)
}
