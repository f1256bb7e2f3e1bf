/** Outcomes of the library's operations: a missing value is `None`, and a
    request either commits a value or raises an error, both kept as data so
    that `:-` can pass a raise on to the caller. */
module Results {

  datatype Option<+T> = None | Some(value: T)

  /** The outcome of a request handled inside one database session: `Ok`
      carries what was committed, `Err` what was raised.  An `Err` carries no
      store because leaving the session rolls back every uncommitted write. */
  datatype Result<+T, +E> = Ok(value: T) | Err(error: E) {

    predicate IsFailure() {
      Err?
    }

    function PropagateFailure<U>(): Result<U, E>
      requires Err?
    {
      Err(error)
    }

    function Extract(): T
      requires Ok?
    {
      value
    }
  }
}
