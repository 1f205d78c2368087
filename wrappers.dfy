/** Option and Result, standing for Java's nullable references and thrown exceptions. */
module Wrappers {

  /** A value or Java's `null`. */
  datatype Option<+T> = None | Some(value: T)

  /** A normal return or a thrown error. */
  datatype Result<+R, +E> = Success(value: R) | Failure(error: E)
}
