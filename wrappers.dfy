/** Failure-compatible helper datatypes shared by the other modules. */
module Wrappers {

  /** An optional value, as returned by the block store's size lookup. */
  datatype Option<+T> = None | Some(value: T) {

    /** The wrapped value, or `default` when there is none (Java's orElse). */
    function GetOr(default: T): T {
      match this
      case Some(v) => v
      case None => default
    }
  }

  /** Success carrying a value, or the error a Java method would have thrown. */
  datatype Result<+T, +E> = Success(value: T) | Failure(error: E)

  /** Completion without a value, or the error a void Java method would have thrown. */
  datatype Outcome<+E> = Pass | Fail(error: E)
}
