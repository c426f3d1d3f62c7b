/** Optional values (a pandas cell that may be NaN) and results with an error
    (an exception raised while reading the station files). */
module Wrappers {

  datatype Option<+T> = None | Some(value: T)

  datatype Result<+T, +E> = Success(value: T) | Failure(error: E)
}
