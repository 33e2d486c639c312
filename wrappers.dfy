/** Failure-compatible wrappers used by the model: the source's `Option` and its panics as `Result`. */
module Wrappers {

  datatype Option<+T> = None | Some(value: T)

  datatype Result<+T, +E> = Ok(value: T) | Err(error: E)
}
