/** Failure-carrying values used in place of the source's exceptions and NaN cells. */
module Wrappers {
  datatype Option<+T> = None | Some(value: T)

  datatype Result<+T, +E> = Success(value: T) | Failure(error: E)
}
