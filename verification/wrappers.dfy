/** Failure-carrying values shared by the rest of the model: `Option` stands
    for a Java reference that may be null, `Result` for a call that either
    returns a value or throws. */
module Wrappers {

  /** A value that may be absent (a Java `null`). */
  datatype Option<+T> = None | Some(value: T)

  /** The outcome of a call that may throw: `Failure` carries what was thrown. */
  datatype Result<+T, +E> = Success(value: T) | Failure(error: E)
}
