/** Failure-compatible wrappers used by the model: an optional value and a value-or-error. */
module Wrappers {

  /** A JSON value that may be null or absent, or a SQL column that may be NULL. */
  datatype Option<+T> = None | Some(value: T) {

    /** The wrapped value, or `default` when there is none. */
    function GetOr(default: T): T {
      match this
      case Some(v) => v
      case None => default
    }
  }

  /** The result of a step that either produces a value or raises an error. */
  datatype Result<+R, +E> = Success(value: R) | Failure(error: E)
}
