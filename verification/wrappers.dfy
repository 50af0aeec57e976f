/** Failure-carrying result types shared by the whole model. */
module Wrappers {

  /** A value that may be absent: Python's `None` versus a value. */
  datatype Option<+T> = None | Some(value: T)

  /** The outcome of an operation that raises instead of returning a value. */
  datatype Result<+T, +E> = Success(value: T) | Failure(error: E)
}
