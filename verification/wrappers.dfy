/** Failure-carrying values: a JSON key that may be absent, and a load that may fail. */
module Wrappers {

  /** A value that may be missing, such as an absent JSON key. */
  datatype Option<+T> = None | Some(value: T) {

    /** The value, or `default` when absent (Python's `dict.get(key, default)`). */
    function GetOr(default: T): T {
      match this
      case Some(v) => v
      case None => default
    }
  }

  /** The outcome of a load: the produced value, or the error that aborted it. */
  datatype Result<+R, +E> = Success(value: R) | Failure(error: E)
}
