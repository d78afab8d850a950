/** Wrappers used throughout the model: an optional value, and a value-or-error
    result standing for the Java exceptions the engine throws. */
module Wrappers {

  datatype Option<+T> = None | Some(value: T)

  datatype Result<+T, +E> = Ok(value: T) | Err(error: E)
}
