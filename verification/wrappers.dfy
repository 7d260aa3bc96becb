/** Failure-compatible wrappers used throughout the model: `Option` for values
    that may be absent (a null pointer, `std::string::npos`) and `Result` for
    computations that either succeed or abort on a fatal invariant violation. */
module Wrappers {

  datatype Option<+T> = None | Some(value: T)

  datatype Result<+R, +E> = Success(value: R) | Failure(error: E) {

    predicate IsFailure() {
      Failure?
    }

    function PropagateFailure<U>(): Result<U, E>
      requires Failure?
    {
      Failure(error)
    }

    function Extract(): R
      requires Success?
    {
      value
    }
  }
}
