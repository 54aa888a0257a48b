/** Optional values and the outcome of a call that may be rejected. */
module Wrappers {

  datatype Option<+T> = None | Some(value: T)

  /** A settled promise: fulfilled with a value, or rejected with an error message. */
  datatype Result<+R> = Success(value: R) | Failure(error: string)
}
