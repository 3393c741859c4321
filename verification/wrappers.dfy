/** Optional values and success-or-failure results, the two shapes the
    component's nullable values and thrown errors take in this model. */
module Wrappers {

  /** A value that may be absent: TypeScript's `T | null` or an optional field. */
  datatype Option<+T> = None | Some(value: T)

  /** The outcome of an operation that either produces a value or throws. */
  datatype Result<+R, +E> = Success(value: R) | Failure(error: E)
}
