/** Success/failure values standing in for JavaScript's `throw` and `undefined`. */
module Wrappers {

  datatype Option<+T> = None | Some(value: T)

  /** A computation that either returns a value or throws; `error` is the thrown message. */
  datatype Result<+T> = Success(value: T) | Failure(error: string)
}
