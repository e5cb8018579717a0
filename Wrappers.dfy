/** Option and Result: the C# code's `null` and the exceptions `CommandRequest`'s constructor throws, as values. */
module Wrappers {

  /** A value that may be absent (a nullable reference). */
  datatype Option<+T> = None | Some(value: T) {

    /** The value, or `default` when absent (the `??` operator). */
    function GetOr(default: T): T {
      match this
      case Some(v) => v
      case None => default
    }
  }

  /** A computation that either succeeds or throws `error`. */
  datatype Result<+T, +E> = Success(value: T) | Failure(error: E)
}
