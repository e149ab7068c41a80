/** Failure-compatible result types shared by the modules of this project. */
module Wrappers {

  /** A value that may be absent: a Go nil pointer or nil map. */
  datatype Option<+T> = None | Some(value: T)

  /** A Go `(value, error)` pair where exactly one half is meaningful. */
  datatype Result<+T, +E> = Success(value: T) | Failure(error: E)
}
