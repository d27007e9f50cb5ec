/** Option and Result, the two failure-carrying datatypes the model uses. */
module Wrappers {

  /** An optional value, as `optional<T>` holds one. */
  datatype Option<+T> = None | Some(value: T)

  /** The outcome of an operation that either returns a value or throws. */
  datatype Result<+T, +E> = Success(value: T) | Failure(error: E)
}
