/**
 * Option and Result, the two sum types every part of the model returns
 * where the source returns `Option<T>` or `Result<T, E>`.
 */
module Wrappers {
  datatype Option<T> = None | Some(value: T)

  datatype Result<T, E> = Ok(value: T) | Err(error: E)
}
