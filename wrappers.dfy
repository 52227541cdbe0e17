/** Failure-carrying result types shared by the modules of this model. */
module Wrappers {

  datatype Option<+T> = None | Some(value: T)

  /** A computation that either produces a value or fails with an error the source raises. */
  datatype Result<+T, +E> = Ok(value: T) | Err(error: E)
}
