/** Failure-carrying return values: the model's stand-in for Python's `None` and exceptions. */
module Wrappers {

  datatype Option<+T> = None | Some(value: T) {
    /** Python's `x or default` on an optional list. */
    function GetOr(default: T): T {
      match this
      case Some(v) => v
      case None => default
    }
  }

  datatype Result<+R, +E> = Success(value: R) | Failure(error: E)
}
