/** Option and Result, the failure-carrying values used across the model. */
module Wrappers {

  datatype Option<+T> = None | Some(value: T)

  /** A computation that either returns a value or raises an error with a message. */
  datatype Result<+T, +E> = Success(value: T) | Failure(error: E)
}
