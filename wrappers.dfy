/** The two failure-compatible wrappers the model needs. */
module Wrappers {

  /** A value that may be missing: JavaScript's `null`/`undefined` alternative. */
  datatype Option<T> = None | Some(value: T) {

    /** The wrapped value, or `default` when there is none (the `x || default` idiom). */
    function GetOr(default: T): T {
      match this
      case Some(v) => v
      case None => default
    }
  }

  /** Either a computed value or the exception that a computation raised. */
  datatype Result<T, E> = Success(value: T) | Failure(error: E)
}
