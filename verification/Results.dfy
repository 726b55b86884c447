/** Go's (value, error) returns: a value, or the error with its message. */
module Results {
  datatype Result<+T> = Ok(value: T) | Err(error: string) {
    predicate IsFailure() {
      Err?
    }

    function PropagateFailure<U>(): Result<U>
      requires Err?
    {
      Err(error)
    }

    function Extract(): T
      requires Ok?
    {
      value
    }
  }

  datatype Option<+T> = None | Some(value: T)

  /** A byte slice; nil and the empty slice are not told apart. */
  type bytes = seq<bv8>
}
