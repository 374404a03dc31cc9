/** Option and Result values used where the modelled code returns None or raises. */
module Wrappers {

  datatype Option<+T> = None | Some(value: T) {
    function GetOr(default: T): T {
      match this
      case Some(v) => v
      case None => default
    }
  }

  /** `Err` carries the text that `str(exc)` gives for the exception raised. */
  datatype Result<+T> = Ok(value: T) | Err(message: string)
}
