/** Option and Result datatypes used across the model: `Option` for a value
    that may be absent and `Result` for a computation that may raise. */
module Wrappers {

  datatype Option<+T> = None | Some(value: T)

  datatype Result<+R, +E> = Success(value: R) | Failure(error: E)

}
