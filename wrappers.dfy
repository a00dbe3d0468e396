/** Option and Result values used for the program's "infinity" sentinel and its raised errors. */
module Wrappers {

  datatype Option<T> = None | Some(value: T)

  datatype Result<T, E> = Ok(value: T) | Err(error: E)
}
