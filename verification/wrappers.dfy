/** Failure-carrying results, the Dafny counterpart of Go's `(value, error)` returns. */
module Wrappers {

  /** Either the value an operation produced or the error it returned instead. */
  datatype Result<+T, +E> = Success(value: T) | Failure(error: E)
}
