/** Failure-carrying result types used where the driver can throw. */
module Wrappers {

  /** A value that may be absent; models a Java reference that may be null. */
  datatype Option<+T> = None | Some(value: T)

  /** Either a computed value or the exception that replaced it. */
  datatype Result<+R, +E> = Success(value: R) | Failure(error: E)
}
