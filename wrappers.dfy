/** Optional values and error results shared by the whole model. */
module Wrappers {

  /** A value that may be absent: JavaScript `undefined`/`null`, a Kotlin or Java `null`. */
  datatype Option<+T> = None | Some(value: T) {
    function GetOr(default: T): T {
      match this
      case Some(v) => v
      case None => default
    }
  }

  /** The outcome of an operation that may throw: the value, or the exception's message. */
  datatype Result<+T> = Ok(value: T) | Err(error: string)
}
