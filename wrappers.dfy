/** Stand-ins for Java's nullable references and thrown exceptions. */
module Wrappers {

  /** A reference that may be null: `None` plays the part of Java's `null`. */
  datatype Option<+T> = None | Some(value: T)

  /** The value of a computation that may throw: `Err` carries the exception kind. */
  datatype Result<+T, +E> = Ok(value: T) | Err(error: E)
}
