/** Option and Result, used for Java's null / Optional and for thrown exceptions. */
module Wrappers {

  /** `None` stands for Java's `null` or an empty `Optional`. */
  datatype Option<+T> = None | Some(value: T)

  /** `Failure` stands for an exception the Java code throws. */
  datatype Result<+R, +E> = Success(value: R) | Failure(error: E)
}
