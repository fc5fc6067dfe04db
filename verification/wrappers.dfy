/** Failure-compatible result types shared by every module of the model.
    The source signals its errors with `assert` (AssertionError), KeyError,
    IndexError and friends; the model returns them as values instead. */
module Wrappers {

  datatype Option<+T> = None | Some(value: T)

  /** Either a value or the message of the error the source raises. */
  datatype Result<+T> = Success(value: T) | Failure(error: string) {

    predicate IsFailure() {
      Failure?
    }

    function PropagateFailure<U>(): Result<U>
      requires Failure?
    {
      Failure(error)
    }

    function Extract(): T
      requires Success?
    {
      value
    }
  }
}
