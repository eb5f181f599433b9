/** Failure-compatible result types used for the error paths of the model. */
module Wrappers {

  datatype Option<+T> = None | Some(value: T)

  /** The value of a call that either returns or raises. */
  datatype Result<+T, +E> = Ok(value: T) | Err(error: E)

  /** The value of a call that returns nothing or raises. */
  datatype Outcome<+E> = Pass | Fail(error: E)
}
