/** Optional values and success-or-error outcomes, used where the source
    returns `None` or raises. */
module Wrappers {

  datatype Option<+T> = None | Some(value: T) {
    function GetOr(default: T): T {
      match this
      case Some(v) => v
      case None => default
    }
  }

  /** `Err` carries the exception the source raises. */
  datatype Outcome<+T, +E> = Ok(value: T) | Err(error: E)
}
