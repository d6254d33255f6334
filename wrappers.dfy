/** Optional values and results with an error, shared by the task model and the store. */
module Wrappers {

  /** A value that may be missing (Python's `None`). */
  datatype Option<+T> = None | Some(value: T)

  /** The outcome of an operation that can be rejected. */
  datatype Result<+T, +E> = Ok(value: T) | Err(error: E)
}
