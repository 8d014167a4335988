/** Failure-carrying wrappers shared by the modules of this model. */
module Wrappers {

  /** A value that may be absent. */
  datatype Option<+T> = None | Some(value: T)

  /** The normal result of an operation, or the exception it raises. */
  datatype Result<+R, +E> = Success(value: R) | Failure(error: E)
}
