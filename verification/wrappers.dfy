/** Optional values and success/failure results shared by every module. */
module Wrappers {

  /** A value that may be absent: JavaScript's `null`/`undefined` results. */
  datatype Option<+T> = None | Some(value: T)

  /** The outcome of an operation that may throw or reject. */
  datatype Result<+T, +E> = Success(value: T) | Failure(error: E)
}
