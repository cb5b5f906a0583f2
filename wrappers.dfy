/** Option, Result and Outcome: the stock failure-carrying datatypes used throughout the model. */
module Wrappers {

  /** A value that may be absent: C#'s `null` for reference results. */
  datatype Option<+T> = None | Some(value: T) {
    /** The value, or `default` when absent: C#'s `x ?? default`. */
    function GetOr(default: T): T {
      match this
      case Some(v) => v
      case None => default
    }
  }

  /** A computation that returns a value or throws. */
  datatype Result<+T, +E> = Ok(value: T) | Err(error: E)

  /** A computation that returns nothing, or throws. */
  datatype Outcome<+E> = Pass | Fail(error: E)
}
