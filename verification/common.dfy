/** Failure-carrying result types shared by every module of the model.
    Java's `null` returns become `None`, and its thrown exceptions become
    `Failure` values carrying the kind of exception that would be thrown. */
module Common {

  datatype Option<+T> = None | Some(value: T)

  /** The exceptions the modelled code can raise. */
  datatype Error =
    | Unsupported(detail: string)        // UnsupportedOperationException
    | IllegalArgument(detail: string)    // IllegalArgumentException
    | NullValue                          // NullPointerException from a null check

  datatype Result<+T> = Success(value: T) | Failure(error: Error) {
    predicate IsFailure() {
      Failure?
    }

    function PropagateFailure<U>(): Result<U>
      requires Failure?
    {
      Failure(error)
    }

    function Extract(): T
      requires Success?
    {
      value
    }
  }
}
