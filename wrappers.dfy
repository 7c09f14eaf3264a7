/** Failure-carrying results, standing in for the exceptions thrown by the dispatcher code. */
module Wrappers {

  datatype Option<+T> = None | Some(value: T)

  /** `Failure(e)` models a thrown error whose message is `e`. */
  datatype Result<+T, +E> = Success(value: T) | Failure(error: E)
}
