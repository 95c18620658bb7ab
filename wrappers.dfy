/** Optional values and results with an error case, shared by both containers. */
module Wrappers {

  /** A value that may be absent; stands for a nullable reference. */
  datatype Option<+T> = None | Some(value: T)

  /** The outcome of an operation that can fail with an exception. */
  datatype Result<+T, +E> = Success(value: T) | Failure(error: E)
}
