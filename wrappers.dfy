/** Failure-carrying values shared by the other modules. */
module Wrappers {

  datatype Option<+T> = None | Some(value: T)

  /** The outcome of an operation that either delivers a value or fails with a reason. */
  datatype Result<+R, +E> = Success(value: R) | Failure(error: E)
}
