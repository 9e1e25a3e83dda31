/** Option and Result values, used where the modelled code returns None or raises. */
module Wrappers {

  datatype Option<+T> = None | Some(value: T)

  /** Ok carries the value a call returns; Err stands for the exception it raises. */
  datatype Result<+T, +E> = Ok(value: T) | Err(error: E)
}
