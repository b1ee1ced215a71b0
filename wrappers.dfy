/** Option and Result values used in place of JavaScript's `undefined` and thrown errors. */
module Wrappers {

  datatype Option<+T> = None | Some(value: T)

  /** The outcome of a handler that either produces a value or reports an error message. */
  datatype Result<+T> = Ok(value: T) | Err(message: string)
}
