/** Optional values and fallible results: the Python code's `None` and its raised exceptions. */
module Wrappers {

  /** A value that may be absent: a missing dictionary key or Python's `None`. */
  datatype Option<+T> = None | Some(value: T) {
    function GetOr(default: T): T {
      match this
      case Some(v) => v
      case None => default
    }
  }

  /** The outcome of a call that may raise: its return value, or the exception it raises. */
  datatype Result<+R, +E> = Success(value: R) | Failure(error: E)
}
