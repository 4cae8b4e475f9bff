/** Optional values and results with an error, for the null reference and the thrown exception of the source. */
module Wrappers {

  /** A value that may be absent (a null reference in the source). */
  datatype Option<+T> = None | Some(value: T)

  /** Either a value or the error the source would throw. */
  datatype Result<+R, +E> = Success(value: R) | Failure(error: E)
}
