/** Option and Result, the two shapes the store and the token service return. */
module Wrappers {

  /** Python's `Optional[T]`: `None` or a present value. */
  datatype Option<+T> = None | Some(value: T) {

    /** The value when present, otherwise `default`. */
    function GetOr(default: T): T {
      match this
      case Some(v) => v
      case None => default
    }
  }

  /** A value, or the error a Python function would have raised. */
  datatype Result<+R, +E> = Success(value: R) | Failure(error: E)
}
