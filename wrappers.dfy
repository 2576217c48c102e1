/** Optional values and success-or-failure results. */
module Wrappers {

  /** An absent (`null`/`undefined`) or present value. */
  datatype Option<+T> = None | Some(value: T)

  /** The outcome of an operation that may throw. */
  datatype Result<+T, +E> = Success(value: T) | Failure(error: E)
}
