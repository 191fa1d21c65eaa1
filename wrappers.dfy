/** Small failure-compatible wrappers shared by the model. */
module Wrappers {

  /** A value that may be absent: JavaScript's `null` / `undefined`. */
  datatype Option<+T> = None | Some(value: T)

  /** The outcome of an async call that either resolves to a value or throws an
      `Error` whose `message` is carried along. */
  datatype Result<+T> = Ok(value: T) | Err(message: string)
}
