/** Option and Result, the failure-carrying values used across the model. */
module Wrappers {

  datatype Option<+T> = None | Some(value: T)

  /** The value of a step that either produces a `T` or raises an `E`. */
  datatype Result<+T, +E> = Ok(value: T) | Err(error: E)
}
