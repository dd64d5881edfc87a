/** Option, the value-or-nothing wrapper used wherever a JavaScript value may be
    null, undefined or of the wrong type, and Result, a value or the error an
    operation throws. */
module Wrappers {

  datatype Option<+T> = None | Some(value: T) {

    /** The value, or `default` when there is none. */
    function GetOr(default: T): T {
      match this
      case Some(v) => v
      case None => default
    }
  }

  datatype Result<+T, +E> = Success(value: T) | Failure(error: E)
}
