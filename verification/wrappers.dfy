/** Optional values and results-or-errors, shared by every module of the model. */
module Wrappers {

  /** A value that may be absent: a missing bucket, an unset query parameter. */
  datatype Option<+T> = None | Some(value: T) {

    /** The wrapped value, or `default` when there is none. */
    function GetOr(default: T): T {
      match this
      case Some(v) => v
      case None => default
    }
  }

  /** The outcome of an operation that returns a value or an error. */
  datatype Result<+T, +E> = Success(value: T) | Failure(error: E)
}
