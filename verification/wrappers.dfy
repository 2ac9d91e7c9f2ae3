/** Failure-carrying datatypes shared by the model. */
module Wrappers {

  /** A value that may be missing: pandas' NaN cell, or "no reference point". */
  datatype Option<+T> = None | Some(value: T)

  /** The outcome of an operation that can raise. */
  datatype Result<+T, +E> = Ok(value: T) | Err(error: E)
}
