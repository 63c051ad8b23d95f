/** Failure-carrying values used throughout the model: `Option` for a value
    that may be absent and `Result` for an operation that can fail. */
module Wrappers {

  datatype Option<+T> = None | Some(value: T)

  datatype Result<+T, +E> = Ok(value: T) | Err(error: E)
}
