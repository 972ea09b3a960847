/** Optional values and results with an error, shared by both allocation engines. */
module Wrappers {

  /** A value that may be absent; stands for a nullable pointer. */
  datatype Option<+T> = None | Some(value: T)

  /** Either a value or the error condition the source raises instead. */
  datatype Result<+R, +E> = Success(value: R) | Failure(error: E)
}
