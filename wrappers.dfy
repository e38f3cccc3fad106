/** Optional values and error-carrying results, used where the program returns
    `None` or raises / exits instead of producing a value. */
module Wrappers {

  datatype Option<+T> = None | Some(value: T)

  datatype Result<+R, +E> = Success(value: R) | Failure(error: E)
}
