/** Failure-carrying result types used where the Python code returns None or raises. */
module Wrappers {

  /** A value that may be missing, standing for Python's `None`. */
  datatype Option<+T> = None | Some(value: T)

  /** A computation that either produced a value or failed with an error. */
  datatype Result<+T, +E> = Success(value: T) | Failure(error: E)
}
