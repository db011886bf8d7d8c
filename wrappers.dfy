/** Option and Result: the absent value and the error return of the Go code. */
module Wrappers {

  /** A value that may be absent: a nil pointer or a missing map entry in the source. */
  datatype Option<+T> = None | Some(value: T)

  /** A value or an error, as in Go's `(value, error)` return pair. */
  datatype Result<+T, +E> = Success(value: T) | Failure(error: E)
}
