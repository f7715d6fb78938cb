/** Values shared by every module: an optional value (JavaScript's `null`
    or `undefined`), a thrown JavaScript `Error`, and the settlement of a
    promise that may reject. */
module Wrappers {

  datatype Option<+T> = None | Some(value: T)

  /** A JavaScript `Error`; only its message is observable by the code. */
  datatype Error = Error(message: string)

  /** A promise that fulfils with a value or rejects with an `Error`. */
  datatype Result<+T> = Ok(value: T) | Err(error: Error)
}
