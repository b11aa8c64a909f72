/** Option and Result values shared by every module of the model. */
module Basics {

  /** A value that may be absent: Go's nil pointer, nil map or nil error. */
  datatype Option<T> = None | Some(value: T)

  /** Either a value or an error: Go's `(T, error)` pair with exactly one side meaningful. */
  datatype Result<T, E> = Ok(value: T) | Err(error: E)
}
