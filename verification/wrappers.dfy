/** Failure-carrying values for the model's partial operations. */
module Wrappers {

  datatype Option<+T> = None | Some(value: T)

  /** The outcome of an operation that the source can abort with an assertion. */
  datatype Result<+R, +E> = Success(value: R) | Failure(error: E)
}
