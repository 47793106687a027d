/** Option and Result, the two failure-carrying datatypes the model uses in place
    of Java's null references and thrown exceptions. */
module Wrappers {

  /** A possibly-null Java reference. */
  datatype Option<+T> = None | Some(value: T) {

    /** The referenced value, or `default` when the reference is null. */
    function GetOr(default: T): T {
      match this
      case Some(v) => v
      case None => default
    }
  }

  /** A Java call that either returns a value or throws an exception with a message. */
  datatype Result<+R, +E> = Success(value: R) | Failure(error: E)
}
