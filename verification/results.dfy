/** Failure-compatible wrappers used by every handler of the model. */
module Results {

  /** A value that may be absent: a missing request field, a lookup miss. */
  datatype Option<+T> = None | Some(value: T)

  /** The outcome of a handler: a value, or the error response it sends. */
  datatype Result<+T, +E> = Success(value: T) | Failure(error: E) {

    predicate IsFailure() {
      Failure?
    }

    function PropagateFailure<U>(): Result<U, E>
      requires Failure?
    {
      Failure(error)
    }

    function Extract(): T
      requires Success?
    {
      value
    }
  }
}
