/** Failure-carrying results used throughout the model: Go's `(value, error)` pairs
    become `Result`, and optional values become `Option`. */
module Wrappers {

  datatype Option<+T> = None | Some(value: T)

  datatype Result<+T, +E> = Success(value: T) | Failure(error: E)
}
