/** Option and Result: the explicit "empty cell" / "no value" marker and the
    error-carrying result used instead of Python's None and ValueError. */
module Wrappers {

  /** A cell or a return value that may be absent (Python's None). */
  datatype Option<+T> = None | Some(value: T)

  /** The outcome of an operation that raises on bad input. */
  datatype Result<+R, +E> = Ok(value: R) | Err(error: E)
}
