/** Wrappers for the CLI's error returns and nil values. */
module Wrappers {

  /** A value that may be absent; Go's nil map or nil interface is `None`. */
  datatype Option<+T> = None | Some(value: T) {

    function GetOr(default: T): T {
      match this
      case Some(v) => v
      case None => default
    }
  }

  /** The result of a Go function returning `(value, error)`. */
  datatype Result<+R, +E> = Success(value: R) | Failure(error: E)

  /** The result of a Go function returning only an `error`. */
  datatype Outcome<+E> = Pass | Fail(error: E)
}
