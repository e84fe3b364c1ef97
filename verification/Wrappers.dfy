/** The two result types shared by every component of the model. */
module Wrappers {
  datatype Option<+T> = None | Some(value: T)

  /** The source's exceptions: an operation either succeeds with a value or raises an error. */
  datatype Result<+T, +E> = Ok(value: T) | Err(error: E)
}
