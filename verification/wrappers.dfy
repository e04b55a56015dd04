/** Failure-carrying values shared by the other modules. */
module Wrappers {

  datatype Option<+T> = None | Some(value: T) {
    function GetOr(default: T): T {
      match this
      case Some(v) => v
      case None => default
    }
  }

  /** A result or the exception the original code would have thrown. */
  datatype Result<+T, +E> = Ok(value: T) | Err(error: E)
}
