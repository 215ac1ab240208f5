/** Failure-carrying datatypes used across the model. */
module Wrappers {

  /** A value that may be absent; stands for a Go slice that may be nil. */
  datatype Option<T> = None | Some(value: T)

  /** Either a value or an error; stands for Go's `(value, error)` return pair. */
  datatype Result<T, E> = Success(value: T) | Failure(error: E)
}
