/** Failure-compatible result type shared by all decoders.
    `Err` stands for an exception thrown by the source (or, where noted, for a
    path on which the source would go on with `undefined`/`NaN` values). */
module Results {

  datatype Option<+T> = None | Some(value: T)

  datatype Result<+T, +E> = Ok(value: T) | Err(error: E) {

    predicate IsFailure() {
      Err?
    }

    function PropagateFailure<U>(): Result<U, E>
      requires Err?
    {
      Err(error)
    }

    function Extract(): T
      requires Ok?
    {
      value
    }
  }
}
