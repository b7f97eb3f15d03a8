/** Failure-carrying datatypes shared by the model: a JavaScript value that may be
    `undefined` becomes an `Option`, and a call that may throw becomes a `Result`.
 */
module Wrappers {

  /** A value that may be absent, as an optional parameter or property in JavaScript. */
  datatype Option<+T> = None | Some(value: T)

  /** The outcome of a call that either returns a value or throws an error. */
  datatype Result<+R, +E> = Success(value: R) | Failure(error: E)
}
