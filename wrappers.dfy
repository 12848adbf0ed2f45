/** Failure-carrying results shared by the keyboard and graphics models. */
module Wrappers {

  datatype Option<+T> = None | Some(value: T) {
    function GetOr(default: T): T {
      match this
      case Some(v) => v
      case None => default
    }
  }

  /** A Go panic or a Go error return, seen from the caller. */
  datatype Result<+T, +E> = Success(value: T) | Failure(error: E)
}
