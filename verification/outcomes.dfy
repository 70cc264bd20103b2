/** Failure-carrying wrappers used throughout the model: `Option` stands for a
    C# nullable value or reference, `Result` for an operation that can throw. */
module Outcomes {

  /** A C# reference or `Nullable<T>` that may be null. */
  datatype Option<+T> = None | Some(value: T) {

    /** `HasValue ? Value : default`. */
    function GetOr(default: T): T {
      match this
      case Some(v) => v
      case None => default
    }
  }

  /** The outcome of a C# operation that either returns a value or throws. */
  datatype Result<+R, +E> = Success(value: R) | Failure(error: E) {

    predicate IsFailure() {
      Failure?
    }

    function PropagateFailure<U>(): Result<U, E>
      requires Failure?
    {
      Failure(error)
    }

    function Extract(): R
      requires Success?
    {
      value
    }
  }
}
