/** Option and Result, the model's stand-ins for Java's nullable references,
    java.util.Optional and thrown exceptions. */
module Wrappers {

  /** A value that may be absent (`null` or `Optional.empty()` in the source). */
  datatype Option<+T> = None | Some(value: T) {

    /** The held value, or `default` when absent (`Optional.orElse`). */
    function GetOr(default: T): T {
      match this
      case Some(v) => v
      case None => default
    }
  }

  /** The outcome of an operation that may throw: a value, or the error it raised. */
  datatype Result<+T, +E> = Success(value: T) | Failure(error: E) {

    predicate IsFailure() {
      Failure?
    }

    function PropagateFailure<U>(): Result<U, E>
      requires Failure?
    {
      Failure(error)
    }

    function Extract(): T
      requires Success?
    {
      value
    }
  }
}
