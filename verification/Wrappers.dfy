/** The two result shapes shared by every module. */
module Wrappers {
  /** Python's `T | None`. */
  datatype Option<+T> = None | Some(value: T)

  /** A call that either returns or raises. */
  datatype Result<+T, +E> = Ok(value: T) | Err(error: E)
}
