/** Failure-carrying datatypes shared by every layer of the model. */
module Wrappers {

  /** A value that may be absent (Swift's `Optional`). */
  datatype Option<+T> = None | Some(value: T)

  /** The result of a Swift call that may throw and returns nothing. */
  datatype Outcome<+E> = Pass | Fail(error: E)

  /** The result of a Swift call that may throw and returns a value. */
  datatype Result<+R, +E> = Success(value: R) | Failure(error: E)
}
