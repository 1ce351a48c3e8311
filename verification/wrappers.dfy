/** Failure-compatible wrappers standing in for Java's null results and exceptions. */
module Wrappers {

  /** A value that may be absent: Java's nullable reference. */
  datatype Option<+T> = None | Some(value: T)

  /** Either a value or the error that would have been thrown. */
  datatype Result<+R, +E> = Success(value: R) | Failure(error: E)

  /** Success or the error that would have been thrown, for `void` operations. */
  datatype Outcome<+E> = Pass | Fail(error: E)
}
