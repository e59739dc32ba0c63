/** Failure-carrying results shared by the other modules. */
module Wrappers {

  /** A value that may be absent (Go's nil pointer, a skipped case). */
  datatype Option<+T> = None | Some(value: T)

  /** The outcome of a step that may end the run with an error. */
  datatype Result<+T, +E> = Ok(value: T) | Err(error: E)
}
