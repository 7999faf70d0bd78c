/** Failure-compatible result types shared by every module of the model. */
module Wrappers {

  /** A value that may be absent: the model of a C# null reference. */
  datatype Option<+T> = None | Some(value: T)

  /** Either a value or the error the C# code would have thrown. */
  datatype Result<+T, +E> = Success(value: T) | Failure(error: E) {
    predicate IsFailure() {
      Failure?
    }

    function PropagateFailure<U>(): Result<U, E>
      requires Failure?
    {
      Failure(error)
    }

    function Extract(): T
      requires Success?
    {
      value
    }
  }
}
