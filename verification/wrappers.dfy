/** Failure-carrying wrappers used throughout the model: `Option` for a value
    that may be absent (JavaScript `undefined`) and `Result` for a computation
    that may throw. */
module Wrappers {

  datatype Option<+T> = None | Some(value: T)

  datatype Result<+R, +E> = Success(value: R) | Failure(error: E)
}
