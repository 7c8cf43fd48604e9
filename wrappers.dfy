/** Failure-compatible wrappers used across the model. */
module Wrappers {

  /** A value that may be missing (a null cell of a table column). */
  datatype Option<+T> = None | Some(value: T)

  /** The outcome of a run: the rows it produced, or the reason it stopped. */
  datatype Result<+T, +E> = Ok(value: T) | Err(error: E)
}
