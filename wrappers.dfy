/** Failure-carrying values shared by the modules of the cache model. */
module Wrappers {

  datatype Option<+T> = None | Some(value: T) {
    function GetOr(default: T): T {
      match this
      case Some(v) => v
      case None => default
    }
  }

  /** A value, or the error a Ruby `raise` would have carried. */
  datatype Result<+T, +E> = Ok(value: T) | Err(error: E)

  /** Success of a step that returns nothing, or the error it raised. */
  datatype Outcome<+E> = Pass | Fail(error: E)
}
