/** Failure-carrying values used throughout the model: a Go `(T, error)` pair
    whose error is nil becomes `Success`, and a missing value becomes `None`. */
module Wrappers {

  datatype Option<+T> = None | Some(value: T)

  datatype Result<+R, +E> = Success(value: R) | Failure(error: E)
}
