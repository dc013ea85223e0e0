/** Optional values and error-or-value results, standing in for Python's
    `None` and for a raised exception. */
module Wrappers {

  /** `Optional[T]`: either `None` or a present value. */
  datatype Option<+T> = None | Some(value: T)

  /** The outcome of a call that either returns a value or raises. */
  datatype Result<+R, +E> = Success(value: R) | Failure(error: E)
}
