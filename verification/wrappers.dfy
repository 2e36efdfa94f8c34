/** Option and Result, used for absent dictionary keys and raised exceptions. */
module Wrappers {

  datatype Option<+T> = None | Some(value: T)

  /** Ok carries a value; Err carries the text that str() gives for the raised exception. */
  datatype Result<+T, +E> = Ok(value: T) | Err(error: E)
}
