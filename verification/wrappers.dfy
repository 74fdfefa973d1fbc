/** Option, Result and Outcome, the shapes in which the model reports a value or a failure. */
module Wrappers {

  datatype Option<+T> = None | Some(value: T) {
    function GetOr(default: T): T {
      match this
      case Some(v) => v
      case None => default
    }
  }

  /** The outcome of an operation that produces a value or raises an error. */
  datatype Result<+T, +E> = Ok(value: T) | Err(error: E)

  /** The outcome of an operation that returns nothing of interest or raises an error. */
  datatype Outcome<+E> = Pass | Fail(error: E)
}
