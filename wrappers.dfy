/** Failure-carrying results shared by the modules of this model. */
module Wrappers {

  datatype Option<+T> = None | Some(value: T)

  /** The outcome of an operation whose source raises an exception on bad input. */
  datatype Result<+R, +E> = Success(value: R) | Failure(error: E)
}
