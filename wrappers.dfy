/** Option and result types used across the model. */
module Wrappers {

  /** A value that may be missing; `None` stands for JavaScript's `null` result. */
  datatype Option<+T> = None | Some(value: T)

  /** The outcome of an operation that either produces a value or throws an error. */
  datatype Result<+R, +E> = Success(value: R) | Failure(error: E)
}
