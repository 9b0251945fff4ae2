/** Failure-compatible wrapper types used throughout the model. */
module Wrappers {

  /** An optional value; `None` stands for SQL NULL and for Python's `None`. */
  datatype Option<+T> = None | Some(value: T)

  /** The outcome of an operation that can fail with an error value. */
  datatype Result<+R, +E> = Success(value: R) | Failure(error: E)
}
