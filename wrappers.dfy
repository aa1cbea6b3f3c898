/** Option and Result, for the lookups and the exceptions of the two tools. */
module Wrappers {

  datatype Option<+T> = None | Some(value: T)

  /** The value of a computation, or the error that aborted it. */
  datatype Result<+T, +E> = Ok(value: T) | Err(error: E)
}
