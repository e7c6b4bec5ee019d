/** Optional values and success/failure results, used wherever the system
    has a null, an exception or a crash path. */
module Wrappers {

  datatype Option<+T> = None | Some(value: T)

  datatype Result<+R, +E> = Success(value: R) | Failure(error: E)
}
