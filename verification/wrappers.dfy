/** Option and Result, used for Java's nullable references and thrown exceptions. */
module Wrappers {

  /** `None` stands for a Java `null`. */
  datatype Option<+T> = None | Some(value: T)

  /** `Failure` stands for an exception thrown by the Java code, carrying its message. */
  datatype Result<+T, +E> = Success(value: T) | Failure(error: E)
}
