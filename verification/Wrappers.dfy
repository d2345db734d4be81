/** Optional values and results, standing for the source's nil pointers and error returns, and
    bytes. */
module Wrappers {
  datatype Option<+T> = None | Some(value: T)

  datatype Result<+T, +E> = Success(value: T) | Failure(error: E)

  type byte = bv8
}
