/** Java's nullable references and thrown exceptions, as values. */
module Wrappers {

  /** A value that Java code may leave null. */
  datatype Option<+T> = None | Some(value: T)

  /** The outcome of a call that either returns or throws. */
  datatype Result<+T, +E> = Success(value: T) | Failure(error: E)
}
