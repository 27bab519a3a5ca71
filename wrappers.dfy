/** Option and Result, the failure-compatible wrappers the rest of the model uses with `:-`. */
module Wrappers {

  datatype Option<+T> = None | Some(value: T) {
    function GetOr(default: T): T {
      match this
      case Some(v) => v
      case None => default
    }

    predicate IsFailure() {
      None?
    }

    function PropagateFailure<U>(): Option<U>
      requires None?
    {
      None
    }

    function Extract(): T
      requires Some?
    {
      value
    }
  }

  datatype Result<+T, +E> = Success(value: T) | Failure(error: E) {
    predicate IsFailure() {
      Failure?
    }

    function PropagateFailure<U>(): Result<U, E>
      requires Failure?
    {
      Failure(error)
    }

    function Extract(): T
      requires Success?
    {
      value
    }
  }

  /** Two outcomes agree when both fail, or both succeed with the same value.
      Used where the source's iteration order (a hash map's) decides only WHICH exception is thrown. */
  predicate SameOutcome<T(==), E>(a: Result<T, E>, b: Result<T, E>) {
    a.Success? == b.Success? && (a.Success? ==> a.value == b.value)
  }
}
