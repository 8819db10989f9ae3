/** Failure-compatible wrappers: a value that may be absent, and a value or an error. */
module Wrappers {

  /** An optional value; `None` stands for the missing values (NaN, None) of the tables. */
  datatype Option<+T> = None | Some(value: T) {
    function GetOr(default: T): T {
      match this
      case Some(v) => v
      case None => default
    }
  }

  /** The outcome of an operation that the program ends by raising an exception. */
  datatype Result<+T, +E> = Success(value: T) | Failure(error: E)
}
