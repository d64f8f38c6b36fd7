/** Option and Result, for the source's null columns and error returns. */
module Wrappers {

  datatype Option<+T> = None | Some(value: T) {
    /** The value, or a default when None -- SQL `coalesce`. */
    function GetOr(default: T): T {
      match this
      case Some(v) => v
      case None => default
    }
  }

  datatype Result<+R, +E> = Ok(value: R) | Err(error: E)
}
