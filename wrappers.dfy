/** The error-or-value result that stands for Go's `(value, error)` returns. */
module Wrappers {

  datatype Result<+T, +E> = Success(value: T) | Failure(error: E)
}
