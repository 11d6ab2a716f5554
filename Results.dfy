/** Failure-compatible wrappers shared by the decoders. */
module Results {

  datatype Option<+T> = None | Some(value: T)

  /** A decoder outcome: a value, or the reason decoding stopped. */
  datatype Result<+T, +E> = Ok(value: T) | Err(error: E) {

    predicate IsFailure() {
      Err?
    }

    function PropagateFailure<U>(): Result<U, E>
      requires Err?
    {
      Err(error)
    }

    function Extract(): T
      requires Ok?
    {
      value
    }
  }
}
