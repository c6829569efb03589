/** Option and Result values standing for Rust's `Option` and for the
    outcomes that the program ends with a panic. */
module Wrappers {
  datatype Option<T> = None | Some(value: T)

  datatype Result<T, E> = Ok(value: T) | Err(error: E)
}
