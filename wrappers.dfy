/** Small failure-carrying datatypes shared by every module of the model. */
module Wrappers {

  /** A value that may be missing: Python's `Optional[T]`, `None` included. */
  datatype Option<+T> = None | Some(value: T) {
    function GetOr(default: T): T {
      match this
      case Some(v) => v
      case None => default
    }
  }

  /** The outcome of an operation that either returns a value or raises. */
  datatype Result<+R, +E> = Success(value: R) | Failure(error: E)
}
