/** Failure-compatible wrappers shared by every module of the model.
    - Option<T>: a value that may be absent (TypeScript's `undefined`/`null`).
    - Result<T>: either a value or the message of the Error the source throws. */
module Wrappers {

  datatype Option<+T> = None | Some(value: T) {

    /** The wrapped value, or `default` when absent (TypeScript's `x ?? default`). */
    function GetOr(default: T): T {
      match this
      case Some(v) => v
      case None => default
    }
  }

  datatype Result<+T> = Ok(value: T) | Err(message: string)
}
