/** Optional values and results with an error, used for the filesystem's
    answers and for the error returns of the Go functions. */
module Wrappers {

  datatype Option<+T> = None | Some(value: T)

  datatype Result<+T, +E> = Ok(value: T) | Err(error: E)
}
