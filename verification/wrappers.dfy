/** Optional values and results with a failure case, shared by the model. */
module Wrappers {

  /** Some value, or the Java `null` the source tests for. */
  datatype Option<+T> = None | Some(value: T)

  /** A computed value, or the exception that ended the computation. */
  datatype Result<+R, +E> = Success(value: R) | Failure(error: E)
}
