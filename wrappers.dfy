/** Optional values and results with an error, for the fields a page may lack
    and for the exceptions that end a run. */
module Wrappers {

  datatype Option<+T> = None | Some(value: T)

  datatype Result<+T, +E> = Success(value: T) | Failure(error: E)
}
