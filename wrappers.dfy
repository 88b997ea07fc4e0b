/** Failure-carrying result types shared by every module. */
module Wrappers {

  datatype Option<+T> = None | Some(value: T)

  /** The outcome of a fallible operation: a value, or the error that replaced it. */
  datatype Result<+R, +E> = Success(value: R) | Failure(error: E)
}
