/** Failure-carrying wrappers shared by the whole model. */
module Wrappers {

  /** A Go pointer or interface that may be nil. */
  datatype Option<+T> = None | Some(value: T) {
    function GetOr(default: T): T {
      match this
      case Some(v) => v
      case None => default
    }
  }

  /** A Go `(value, error)` pair whose value is irrelevant when the error is set. */
  datatype Result<+T, +E> = Ok(value: T) | Err(error: E)
}
