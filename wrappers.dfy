/** Optional values and results with an error, used where the application
    returns None or raises an exception that its caller turns into a response. */
module Wrappers {

  datatype Option<+T> = None | Some(value: T)

  datatype Result<+T, +E> = Ok(value: T) | Err(error: E)
}
