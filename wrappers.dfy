/** Option and Result, the two failure-carrying datatypes the model uses. */
module Wrappers {

  /** Stands for a Go value that may be nil. */
  datatype Option<+T> = None | Some(value: T)

  /** The outcome of an operation that the original aborts the process on. */
  datatype Result<+R, +E> = Success(value: R) | Failure(error: E)
}
