/** The Option and Result datatypes used for the source's optional values and error paths. */
module Wrappers {

  /** A value that may be absent: JavaScript's null or undefined. */
  datatype Option<+T> = None | Some(value: T) {
    /** The value if present, otherwise the default (JavaScript's `??`). */
    function GetOr(default: T): T {
      match this
      case Some(v) => v
      case None => default
    }
  }

  /** The outcome of an operation that can fail with an error message. */
  datatype Result<+T> = Ok(value: T) | Err(message: string)
}
