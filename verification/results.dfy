/** Nullable references, outcomes that can fail, and the kinds of exception
    the library throws. A Java `throw` becomes an `Err` that the `:-`
    operator hands up to the caller, so the first failing check decides
    the outcome, as the first throw does in the library. */
module Results {

  /** A Java reference that may be null. */
  datatype Option<+T> = None | Some(value: T)

  /** The exceptions the library raises, by kind, with their message text. */
  datatype Error =
    | IllegalArgument(message: string)
    | IllegalState(message: string)
      // IncorrectResultSizeDataAccessException(message, expectedSize, actualSize)
    | IncorrectResultSize(message: string, expected: nat, actual: nat)
      // a failure reported by the database driver (SQLException and friends)
    | DataAccess(message: string)

  /** Either a value or the error that aborted the computation. */
  datatype Result<+T> = Ok(value: T) | Err(error: Error) {

    predicate IsFailure() {
      Err?
    }

    function PropagateFailure<U>(): Result<U>
      requires Err?
    {
      Err(error)
    }

    function Extract(): T
      requires Ok?
    {
      value
    }
  }
}
