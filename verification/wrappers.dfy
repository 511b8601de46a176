/** Failure-compatible wrappers used throughout the model. */
module Wrappers {

  /** An optional value: the outcome of a parse that may reject its input. */
  datatype Option<+T> = None | Some(value: T)

  /** A value or the error that prevented computing it (a raised exception in the source). */
  datatype Result<+R, +E> = Success(value: R) | Failure(error: E)
}
