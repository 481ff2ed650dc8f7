/** Failure-carrying values shared by the other modules. */
module Wrappers {

  datatype Option<+T> = None | Some(value: T)

  /** The value of a step, or the exception the handler raises there. */
  datatype Result<+T, +E> = Success(value: T) | Failure(error: E)
}
