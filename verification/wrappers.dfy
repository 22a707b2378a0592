/** Failure-carrying result types shared by the model. */
module Wrappers {

  /** An optional value: `None` where the source has no value to give. */
  datatype Option<+T> = None | Some(value: T)

  /** The outcome of an operation that either produces a value or fails. */
  datatype Result<+T, +E> = Ok(value: T) | Err(error: E)
}
