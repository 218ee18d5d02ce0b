/** Optional values and results with an error message, for the operations
    that can fail or produce nothing. */
module Wrappers {
  datatype Option<T> = None | Some(value: T)

  datatype Result<T> = Success(value: T) | Failure(error: string)
}
