/** Failure-compatible result types shared by the buffer modules. */
module Wrappers {

  /** A possibly missing value: a null pointer or `nil` in the source. */
  datatype Option<+T> = None | Some(value: T)

  /** The outcome of an operation that either returns a value or panics. */
  datatype Result<+T, +E> = Success(value: T) | Failure(error: E)
}
