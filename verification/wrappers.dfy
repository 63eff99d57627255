/** Optional values and results with an error, used for lookups that can
    miss and for operations that can fail. */
module Wrappers {

  /** A value that may be absent; stands in for a nullable pointer. */
  datatype Option<+T> = None | Some(value: T)

  /** Either a value or the error that prevented computing it. */
  datatype Result<+R, +E> = Success(value: R) | Failure(error: E)
}
