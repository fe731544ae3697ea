/** Wrappers used throughout the model: `Option` for Java's
    nullable references and `Result` for a value or the exception that replaced it. */
module Wrappers {

  /** A value that may be absent (Java `null`). */
  datatype Option<+T> = None | Some(value: T)

  /** Either a computed value or the failure raised instead of it. */
  datatype Result<+T, +E> = Success(value: T) | Failure(error: E)
}
