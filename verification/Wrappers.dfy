/** Options, and results that are either a value or an error. */
module Wrappers {

  datatype Option<+T> = None | Some(value: T)

  datatype Result<+T, +E> = Ok(value: T) | Err(error: E)

  /** The outcome of a call that returns nothing but may fail. */
  datatype Outcome<+E> = Pass | Fail(error: E)
}
