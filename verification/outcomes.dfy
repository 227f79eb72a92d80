/** Failure-compatible wrappers for the places where the scripts either find
    nothing (a missing file) or stop with an exception. */
module Outcomes {

  /** A value that may be absent, as with a file that does not exist. */
  datatype Option<+T> = None | Some(value: T)

  /** Either a value or the reason the operation stopped. */
  datatype Result<+T, +E> = Ok(value: T) | Err(error: E)
}
