/** Failure-carrying datatypes shared by the model. */
module Wrappers {

  /** An optional value: `None` stands for JavaScript's `null`, `undefined`
      or an unparseable value, depending on the field. */
  datatype Option<+T> = None | Some(value: T) {

    /** The value, or `default` when absent (JavaScript's `x ?? default`). */
    function GetOr(default: T): T {
      match this
      case Some(v) => v
      case None => default
    }
  }

  /** The outcome of a user action: a value, or the message shown to the user. */
  datatype Result<+T> = Ok(value: T) | Err(message: string)
}
