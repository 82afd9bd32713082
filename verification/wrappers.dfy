/** Failure-compatible wrappers used across the model: `Option` for values the
    platform may not have (a missing setting, a missing resource) and `Result`
    for computations that can throw. */
module Wrappers {

  datatype Option<+T> = None | Some(value: T) {

    /** The wrapped value, or `default` when there is none. */
    function GetOr(default: T): T {
      match this
      case Some(v) => v
      case None => default
    }
  }

  datatype Result<+R, +E> = Success(value: R) | Failure(error: E)
}
