/** Optional values and results with an error, as the TypeScript code uses
    `undefined` and thrown errors. */
module Wrappers {

  /** A value that may be absent (`undefined` in the source). */
  datatype Option<+T> = None | Some(value: T) {
    function GetOr(default: T): T {
      match this
      case Some(v) => v
      case None => default
    }
  }

  /** The outcome of an operation that can throw an error with a message. */
  datatype Result<+T> = Ok(value: T) | Err(message: string)
}
