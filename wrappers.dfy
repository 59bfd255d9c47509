/** Outcome types used in place of the exceptions the client raises or swallows. */
module Wrappers {

  datatype Option<+T> = None | Some(value: T)

  /** A value, or the error that stopped its computation. */
  datatype Result<+T, +E> = Ok(value: T) | Err(error: E)

  /** Success without a value, or an error (a statement that may raise). */
  datatype Outcome<+E> = Pass | Fail(error: E)
}
