/** Option and Result: the model's stand-ins for Go's nil pointers and error returns. */
module Wrappers {

  /** A value that may be absent, as a Go pointer that may be nil. */
  datatype Option<+T> = None | Some(value: T)

  /** A value or an error, as a Go `(value, error)` pair in which exactly one is set. */
  datatype Result<+T, +E> = Success(value: T) | Failure(error: E)
}
