/** Optional values and error-carrying results, used for absent request keys
    and for the error responses of the registration route. */
module Wrappers {

  datatype Option<+T> = None | Some(value: T)

  datatype Result<+R, +E> = Ok(value: R) | Err(error: E)
}
