/** Optional values and results that may carry an error, standing in for
    the `NaN`, `null` and thrown `Error` values of the application. */
module Wrappers {

  datatype Option<T> = None | Some(value: T)

  datatype Result<T, E> = Success(value: T) | Failure(error: E)
}
