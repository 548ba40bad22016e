/** Failure-compatible wrappers used in place of Java's null and of thrown exceptions. */
module Wrappers {

  /** A value that may be absent (a Java reference that may be null). */
  datatype Option<+T> = None | Some(value: T)

  /** The value of a computation, or the message of the exception it raised. */
  datatype Result<+T, +E> = Success(value: T) | Failure(error: E)
}
