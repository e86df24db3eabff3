/** Option and Result, the two failure-carrying shapes the model uses for
    Go's nil pointers and `(value, error)` returns. */
module Wrappers {

  /** A value that may be absent (a nil pointer in the source). */
  datatype Option<+T> = None | Some(value: T)

  /** A value or the error that replaced it (Go's `(T, error)` pair where
      exactly one side is meaningful). */
  datatype Result<+T, +E> = Success(value: T) | Failure(error: E)
}
