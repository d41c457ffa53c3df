/** Failure-compatible wrappers used throughout the model: a value that may be
    absent (Python's `None`) and a value or the error the source would raise. */
module Wrappers {

  datatype Option<+T> = None | Some(value: T) {
    /** `x or default` / `dict.get(key, default)` on an optional value. */
    function GetOr(default: T): T {
      match this
      case Some(v) => v
      case None => default
    }

    /** This value if present, otherwise `other`. */
    function OrElse(other: Option<T>): Option<T> {
      if Some? then this else other
    }
  }

  datatype Result<+R, +E> = Success(value: R) | Failure(error: E) {
    predicate IsFailure() {
      Failure?
    }

    function PropagateFailure<U>(): Result<U, E>
      requires Failure?
    {
      Failure(error)
    }

    function Extract(): R
      requires Success?
    {
      value
    }
  }
}
