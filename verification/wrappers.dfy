/** Failure-carrying result types used by every page controller of the model. */
module Wrappers {

  /** A value that may be absent (JavaScript `null`/`undefined`). */
  datatype Option<+T> = None | Some(value: T) {
    function GetOr(default: T): T {
      match this
      case Some(v) => v
      case None => default
    }
  }

  /** The outcome of a step that either produces a value or reports an error message. */
  datatype Result<+R, +E> = Success(value: R) | Failure(error: E)
}
