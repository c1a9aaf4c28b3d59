/** Failure-compatible wrappers used across the model: `Option` for the
    engine's optional raster and `Result` for operations that throw. */
module Wrappers {

  datatype Option<+T> = None | Some(value: T)

  /** Either a value or the error the C++ code throws instead of returning. */
  datatype Result<+T, +E> = Success(value: T) | Failure(error: E) {
    predicate IsFailure() {
      Failure?
    }

    function PropagateFailure<U>(): Result<U, E>
      requires Failure?
    {
      Failure(error)
    }

    function Extract(): T
      requires Success?
    {
      value
    }
  }
}
