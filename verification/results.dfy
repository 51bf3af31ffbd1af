/** The two outcome types of the model: a value that may be absent, read
    with `:-` by the argument reader, and the outcome of a run that may
    abort with a message. */
module Results {

  /** A value that may be absent. The three members below are what `:-`
      needs: absence aborts the rest of the reading. */
  datatype Option<+T> = None | Some(value: T) {

    predicate IsFailure() {
      None?
    }

    function PropagateFailure<U>(): Option<U>
      requires None?
    {
      None
    }

    function Extract(): T
      requires Some?
    {
      value
    }
  }

  /** The outcome of a run: what it computed, or the message it failed with. */
  datatype Result<+T, +E> = Success(value: T) | Failure(error: E)
}
