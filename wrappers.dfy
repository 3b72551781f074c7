/** Option and Result, the two wrappers the model needs. */
module Wrappers {

  /** A value that may be absent (Java's Optional, or a nullable reference). */
  datatype Option<T> = None | Some(value: T)

  /** A value or the error that prevented it (a Java method that returns or throws). */
  datatype Result<T, E> = Ok(value: T) | Err(error: E)
}
