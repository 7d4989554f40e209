/** Failure-carrying result types shared by the PATCH model. */
module Wrappers {

  /** A value that may be missing: stands for a Java reference that may be null. */
  datatype Option<+T> = None | Some(value: T)

  /** The outcome of an operation that may throw: a value, or the error it raised. */
  datatype Result<+T, +E> = Ok(value: T) | Err(error: E)
}
