/** Failure-compatible wrappers: Java's null becomes `Option`, and Java's
    unchecked exceptions become the `Exception` carried by `Result` and `Outcome`. */
module Wrappers {

  datatype Option<+T> = None | Some(value: T)

  /** The unchecked exceptions the modelled code can raise. */
  datatype Exception =
    | UnsupportedOperation   // java.lang.UnsupportedOperationException
    | NullPointer            // java.lang.NullPointerException
    | IllegalArgument        // java.lang.IllegalArgumentException
    | IndexOutOfBounds       // java.lang.IndexOutOfBoundsException
    | ClassCast              // java.lang.ClassCastException
    | StackOverflow          // java.lang.StackOverflowError: a recursion that never bottoms out

  datatype Result<+T> = Success(value: T) | Failure(error: Exception) {
    predicate IsFailure() { Failure? }
    function PropagateFailure<U>(): Result<U>
      requires Failure?
    {
      Failure(error)
    }
    function Extract(): T
      requires Success?
    {
      value
    }
  }

  /** The completion of a `void` Java method: normally, or by a throw. */
  datatype Outcome = Normal | Throws(error: Exception) {
    predicate IsFailure() { Throws? }
    function PropagateFailure(): Outcome
      requires Throws?
    {
      this
    }
  }
}
