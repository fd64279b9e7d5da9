/** Option and Result, used for an absent physical address and for the exceptions of Resolve. */
module Wrappers {
  datatype Option<+T> = None | Some(value: T)

  datatype Result<+T, +E> = Ok(value: T) | Err(error: E)
}
