/** Option and Result values used for Go's nil / error returns. */
module Wrappers {

  /** A value that may be absent (a Go nil slice, a NULL column, an unset variable). */
  datatype Option<+T> = None | Some(value: T)

  /** A computed value or the error a Go function returns beside it. */
  datatype Result<+T, +E> = Ok(value: T) | Err(error: E)
}
