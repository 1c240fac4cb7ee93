/** Optional values and results shared by the error-chain and timezone modules. */
module Wrappers {

  /** A value that may be absent: a failed lookup, a parse that did not succeed. */
  datatype Option<+T> = None | Some(value: T)

  /** The outcome of an operation that either produces a value or fails with a reason. */
  datatype Result<+R, +E> = Success(value: R) | Failure(error: E)
}
