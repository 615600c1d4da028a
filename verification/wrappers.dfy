/** An optional value and a result that carries either a value or an error, shared by
    the whole model. */
module Wrappers {

  /** A value that may be absent; stands for a Java reference that may be null. */
  datatype Option<+T> = None | Some(value: T) {
    /** The wrapped value, or `default` when absent. */
    function GetOr(default: T): T {
      match this
      case Some(v) => v
      case None => default
    }
  }

  /** Either a value or an error; stands for a Java call that may throw. */
  datatype Result<+R, +E> = Success(value: R) | Failure(error: E)
}
