/** Optional values (the source's `T | null`) and fallible results (the source's thrown errors). */
module Wrappers {

  datatype Option<+T> = None | Some(value: T)

  datatype Result<+R, +E> = Success(value: R) | Failure(error: E)
}
