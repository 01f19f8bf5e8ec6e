/** The two outcome types of the model. `Option` is a C# reference that
    may be null. `Result` is a call that returns a value or throws; its three
    members let a `:-` binding hand a thrown exception on to the caller. */
module Wrappers {

  datatype Option<+T> = None | Some(value: T)

  datatype Result<+R, +E> = Success(value: R) | Failure(error: E) {
    predicate IsFailure() {
      Failure?
    }

    function PropagateFailure<U>(): Result<U, E>
      requires Failure?
    {
      Failure(error)
    }

    function Extract(): R
      requires Success?
    {
      value
    }
  }
}
