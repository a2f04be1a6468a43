/** Optional values and error-carrying results, used for the file system's
    nullable event fields and for the exceptions its operations throw. */
module Wrappers {

  datatype Option<+T> = None | Some(value: T)

  datatype Result<+T, +E> = Ok(value: T) | Err(error: E)
}
