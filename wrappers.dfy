/** Option and Result values shared by the other modules. */
module Wrappers {

  datatype Option<+T> = None | Some(value: T)

  /** The outcome of a step that can raise: `Err` carries the exception text. */
  datatype Result<+T, +E> = Ok(value: T) | Err(error: E)
}
