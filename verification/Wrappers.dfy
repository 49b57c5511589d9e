/** The two wrapper types every other module uses. */
module Wrappers {
  /** A value that may be absent. */
  datatype Option<+T> = None | Some(value: T)

  /** A value, or the refusal raised instead of it. */
  datatype Result<+T, +E> = Ok(value: T) | Err(error: E)
}
