/** Result types shared by the other modules. */
module Wrappers {

  /** A value that may be absent: the source's `undefined`. */
  datatype Option<+T> = None | Some(value: T) {
    function GetOr(default: T): T {
      match this
      case Some(v) => v
      case None => default
    }
  }

  /** The source's exceptions and error returns. */
  datatype Result<+T, +E> = Ok(value: T) | Err(error: E)
}
