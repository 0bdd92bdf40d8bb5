/** Failure-carrying values shared by every module of the model. */
module Wrappers {

  /** An optional value: Go's nil pointer or nil error is `None`. */
  datatype Option<+T> = None | Some(value: T)

  /** The `(value, error)` pair of a Go function where exactly one side is meaningful. */
  datatype Result<+T, +E> = Success(value: T) | Failure(error: E)
}
