/** Optional values and error-carrying results, used for absent JSON fields and thrown errors. */
module Wrappers {

  /** An optional value: `None` is an absent (undefined) field. */
  datatype Option<+T> = None | Some(value: T) {

    /** The value, or `default` when absent (the `|| default` idiom). */
    function GetOr(default: T): T
    {
      match this
      case Some(v) => v
      case None => default
    }
  }

  /** The outcome of an operation that may throw: a value or the error it raised. */
  datatype Result<+R, +E> = Success(value: R) | Failure(error: E)
}
