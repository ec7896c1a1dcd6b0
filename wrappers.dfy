/** Option, Result and Outcome datatypes shared by the token modules (plain datatypes, not used with `:-`). */
module Wrappers {

  /** A value that may be missing. */
  datatype Option<+T> = None | Some(value: T)

  /** A computed value or an error, like Go's `(value, error)` pair. */
  datatype Result<+T, +E> = Ok(value: T) | Err(error: E)

  /** Success or one error, like a Go function that returns only `error` (nil on success). */
  datatype Outcome<+E> = Pass | Fail(error: E)
}
