/** Failure-compatible wrappers used across the model. */
module Wrappers {

  /** Python's `None` versus a present value. */
  datatype Option<+T> = None | Some(value: T)

  /** A computation that either produces a value or stops with an error
      (the places where the Python code raises). */
  datatype Result<+T, +E> = Success(value: T) | Failure(error: E)
}
