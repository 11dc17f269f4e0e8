/** Option and Result types used across the model. */
module Wrappers {

  datatype Option<+T> = None | Some(value: T)

  /** Either a computed value or the reason the computation stopped. */
  datatype Result<+T, +E> = Success(value: T) | Failure(error: E)
}
