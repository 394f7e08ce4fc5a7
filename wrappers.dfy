/** Option and Result types shared by the other modules. */
module Wrappers {

  datatype Option<+T> = None | Some(value: T)

  /** The outcome of an expression that may throw. */
  datatype Result<+T, +E> = Ok(value: T) | Err(error: E)
}
