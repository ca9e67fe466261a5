/** Failure-compatible values standing in for Java's null returns and thrown exceptions. */
module Wrappers {

  /** A value that may be absent; `None` plays the part of a Java `null` or a parse failure. */
  datatype Option<+T> = None | Some(value: T)

  /** The outcome of a step that may throw: `Failure` carries the reason. */
  datatype Result<+T, +E> = Success(value: T) | Failure(error: E)
}
