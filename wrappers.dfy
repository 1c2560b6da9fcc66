/** Optional values and success-or-failure results, in place of Go's nil and error returns. */
module Wrappers {

  /** A value that may be absent (Go's nil pointer, nil error). */
  datatype Option<+T> = None | Some(value: T)

  /** The value of a computation that returns either a value or an error. */
  datatype Result<+T, +E> = Success(value: T) | Failure(error: E)
}
