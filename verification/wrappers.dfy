/** Failure-compatible wrappers used across the model: a missing Java reference
    is `None`, and a method that throws returns `Failure`. */
module Wrappers {

  datatype Option<+T> = None | Some(value: T)

  datatype Result<+T, +E> = Success(value: T) | Failure(error: E)
}
