/** Optional values and results with an error, for the `null` checks and thrown errors of the worker. */
module Wrappers {

  /** A value that may be missing (`null` or `undefined` in the worker). */
  datatype Option<+T> = None | Some(value: T) {

    /** The value, or `default` when it is missing. */
    function GetOr(default: T): T {
      match this
      case Some(v) => v
      case None => default
    }
  }

  /** The outcome of a step that either returns a value or throws an error. */
  datatype Result<+T, +E> = Success(value: T) | Failure(error: E)
}
