/** Failure-carrying result types used in place of Java's null returns and exceptions. */
module Wrappers {

  /** A value that may be absent (Java's nullable reference). */
  datatype Option<+T> = None | Some(value: T)

  /** A computed value, or the exception the computation throws. */
  datatype Result<+T, +E> = Ok(value: T) | Err(error: E)

  /** A check that passes, or the exception it throws. */
  datatype Outcome<+E> = Pass | Fail(error: E)
}
