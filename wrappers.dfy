/** Option, Result and Outcome: the model's stand-ins for Python's None and exceptions. */
module Wrappers {

  datatype Option<+T> = None | Some(value: T)

  /** A computation that yields a value or raises an error. */
  datatype Result<+T, +E> = Ok(value: T) | Err(error: E)

  /** A computation that returns normally or raises an error. */
  datatype Outcome<+E> = Pass | Fail(error: E)
}
