/** The two carriers the other modules share: a value that may be missing, and a value or the
    error that stands in for it. */
module Wrappers {
  datatype Option<+T> = None | Some(value: T)

  datatype Result<+T, +E> = Ok(value: T) | Err(error: E)
}
