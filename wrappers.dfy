/** Optional values and outcomes shared by the modules of this model. */
module Wrappers {

  /** A value that may be absent: `undefined`, `null` or a missing property. */
  datatype Option<+T> = None | Some(value: T) {
    function GetOr(default: T): T {
      match this
      case Some(v) => v
      case None => default
    }
  }

  /** The outcome of a call that either returns a value or throws an `Error` with a message. */
  datatype Result<+T> = Ok(value: T) | Err(message: string)
}
