/** Failure-carrying results shared by the model. */
module Wrappers {

  /** A value that may be absent: stands for a Java reference that may be null,
      or for a protobuf field whose presence bit is unset. */
  datatype Option<+T> = None | Some(value: T) {
    /** The wrapped value, or `default` when absent (a protobuf getter on an unset field). */
    function GetOr(default: T): T {
      match this
      case Some(v) => v
      case None => default
    }
  }

  /** The outcome of an operation that returns a value or raises an error. */
  datatype Result<+R, +E> = Success(value: R) | Failure(error: E)

  /** The outcome of a check that returns normally or raises an error. */
  datatype Outcome<+E> = Pass | Fail(error: E)
}
