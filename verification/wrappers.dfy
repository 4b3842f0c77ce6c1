/** The optional value and the success-or-error outcome used across the
    model; `Result` supports `:-`, so a failed step ends the caller with
    the same error. */
module Wrappers {

  datatype Option<+T> = None | Some(value: T)

  /** The outcome of a step that can fail: its value, or why it failed. */
  datatype Result<+R, +E> = Success(value: R) | Failure(error: E) {

    /** `:-` stops at a failure. */
    predicate IsFailure() {
      Failure?
    }

    /** The failure, carried over to the caller's result type. */
    function PropagateFailure<U>(): Result<U, E>
      requires Failure?
    {
      Failure(error)
    }

    /** The value `:-` binds on success. */
    function Extract(): R
      requires Success?
    {
      value
    }
  }
}
