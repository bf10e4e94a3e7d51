/** Option and Result values for the store's "(value, error)" pairs and the token decoder. */
module Wrappers {

  datatype Option<+T> = None | Some(value: T)

  /** A success value or an error value. */
  datatype Result<+T, +E> = Ok(value: T) | Err(error: E)
}
