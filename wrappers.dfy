/** Optional values and results with an error, used for JavaScript's
    `null`/`undefined` and for thrown errors. */
module Wrappers {

  datatype Option<T> = None | Some(value: T)

  datatype Result<T, E> = Success(value: T) | Failure(error: E)
}
