/** Failure-carrying wrappers shared by every module of the model. */
module Wrappers {

  /** A value that may be absent (JavaScript `null` / `undefined`). */
  datatype Option<+T> = None | Some(value: T) {
    function GetOr(default: T): T {
      match this
      case Some(v) => v
      case None => default
    }
  }

  /** The outcome of a call that either returns a value or throws an `Error` carrying a message. */
  datatype Attempt<+T> = Returned(value: T) | Threw(message: string)
}
