/** Failure-carrying result types shared by every handler of the model. */
module Wrappers {

  /** Python's `None` or a value. */
  datatype Option<+T> = None | Some(value: T) {

    /** The value, or `default` for `None`. */
    function GetOr(default: T): T {
      match this
      case Some(v) => v
      case None => default
    }
  }

  /** The `(ok, value)` / `(None, error_message)` pairs the handlers return. */
  datatype Result<+T> = Success(value: T) | Failure(error: string)
}
