/** Option and Result values used for the nullable pointers and the error returns of the tracker. */
module Wrappers {

  datatype Option<+T> = None | Some(value: T)

  datatype Result<+T, +E> = Ok(value: T) | Err(error: E)
}
