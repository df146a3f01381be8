/** Failure-carrying result types used in place of the source's thrown errors. */
module Wrappers {

  /** A value that may be absent (a nullable cache cell, a parse that may fail). */
  datatype Option<+T> = None | Some(value: T)

  /** A computed value, or the message of the Error the source would throw. */
  datatype Result<+T, +E> = Success(value: T) | Failure(error: E)

  /** An action that either completes or fails with an error (a promise without a value). */
  datatype Outcome<+E> = Pass | Fail(error: E)
}
