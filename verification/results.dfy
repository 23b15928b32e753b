/** Failure-carrying values used in place of JavaScript's `null` and thrown strings. */
module Results {

  /** An optional value: `None` stands for a JavaScript `null` (or an absent field). */
  datatype Option<+T> = None | Some(value: T)

  /** The outcome of an operation that may throw: either its value or the reason it threw. */
  datatype Result<+T, +E> = Success(value: T) | Failure(error: E)
  {
    /** A `Failure` is what `:-` passes on to the caller, as a thrown exception would be. */
    predicate IsFailure() {
      Failure?
    }

    /** The same failure, at the caller's value type. */
    function PropagateFailure<U>(): (r: Result<U, E>)
      requires Failure?
    {
      Failure(this.error)
    }

    function Extract(): T
      requires Success?
    {
      value
    }
  }
}
