/** Option and Result, the failure-carrying values used throughout the model. */
module Wrappers {

  datatype Option<+T> = None | Some(value: T)

  /** An operation that either yields a value or fails with an error (a raised exception). */
  datatype Result<+R, +E> = Success(value: R) | Failure(error: E)
}
