/** Failure-carrying datatypes standing in for the source's null results and exceptions. */
module Wrappers {

  /** A value or nothing: the model of a nullable reference. */
  datatype Option<+T> = None | Some(value: T)

  /** A value or the error the source would throw instead of returning. */
  datatype Result<+T, +E> = Success(value: T) | Failure(error: E)
}
