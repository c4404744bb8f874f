/** Failure-compatible wrappers shared by the model: an optional value and a result
    that carries either a value or an error message. */
module Wrappers {

  datatype Option<+T> = None | Some(value: T)

  datatype Result<+T, +E> = Success(value: T) | Failure(error: E)
}
