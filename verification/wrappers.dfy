/** Wrappers used across the model: `Option` for values that
    may be absent (an unreadable file, a regex that does not compile) and
    `Result` for the commands that return either a value or an error. */
module Wrappers {

  datatype Option<+T> = None | Some(value: T) {

    /** Returns the value in Some, or `default` when None. */
    function GetOr(default: T): T {
      match this
      case Some(v) => v
      case None => default
    }
  }

  datatype Result<+R, +E> = Success(value: R) | Failure(error: E)
}
