/** Optional values and outcomes with an error message. */
module Wrappers {

  /** A value that may be absent: `undefined` or `null` in the source. */
  datatype Option<+T> = None | Some(value: T)

  /** A settled promise: resolved with a value or rejected with a message. */
  datatype Result<+T> = Success(value: T) | Failure(error: string)
}
