/** Failure-compatible wrappers used across the model: an optional value (a Go
    pointer that may be nil) and a result that carries either a value or an error. */
module Wrappers {

  datatype Option<+T> = None | Some(value: T)

  datatype Result<+T, +E> = Ok(value: T) | Err(error: E)
}
