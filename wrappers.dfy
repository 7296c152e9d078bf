/** Option and Result, the two failure-compatible wrappers the model uses in place of
    nullable values and thrown exceptions. */
module Wrappers {

  /** A value that may be absent: `null` or a C# nullable. */
  datatype Option<+T> = None | Some(value: T) {

    /** The `??` operator: the value when present, otherwise the default. */
    function GetOr(default: T): T {
      match this
      case Some(v) => v
      case None => default
    }
  }

  /** Either a value or the error that would have been thrown instead. */
  datatype Result<+T, +E> = Success(value: T) | Failure(error: E) {

    predicate IsFailure() {
      Failure?
    }

    function PropagateFailure<U>(): Result<U, E>
      requires Failure?
    {
      Failure(error)
    }

    function Extract(): T
      requires Success?
    {
      value
    }
  }
}
