/** Option and Result: the model of the source's `Option`, `Result` and of its panics. */
module Wrappers {
  datatype Option<+T> = None | Some(value: T)
  datatype Result<+T, +E> = Ok(value: T) | Err(error: E)
}
