/** Option, Result and Outcome: the model's stand-ins for null pointers and
    for the exceptions the C++ code throws. */
module Wrappers {

  datatype Option<+T> = None | Some(value: T)

  /** A computation that yields a value or fails with an error. */
  datatype Result<+T, +E> = Ok(value: T) | Err(error: E)

  /** A computation that only succeeds or fails with an error. */
  datatype Outcome<+E> = Pass | Fail(error: E)
}
