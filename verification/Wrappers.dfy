/** Results that may be missing and calls that may throw. */
module Wrappers {
  datatype Option<+T> = None | Some(value: T)

  // The exceptions the modelled code lets out.
  datatype Error = BadLexicalCast | SqliteError | ContentError

  datatype Result<+T> = Success(value: T) | Failure(error: Error) {
    predicate IsFailure() {
      Failure?
    }

    function PropagateFailure<U>(): Result<U>
      requires Failure?
    {
      Failure(error)
    }

    function Extract(): T
      requires Success?
    {
      value
    }
  }
}
