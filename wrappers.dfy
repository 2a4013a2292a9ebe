/** Failure-carrying wrappers used across the model. */
module Wrappers {

  /** `None` stands for Go's nil where the source distinguishes it. */
  datatype Option<+T> = None | Some(value: T)

  /** A Go `(value, error)` pair where only one half is meaningful. */
  datatype Result<+T, +E> = Success(value: T) | Failure(error: E)
}
