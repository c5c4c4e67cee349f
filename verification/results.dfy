/** Failure-compatible wrappers shared by the whole model, and the three
    ways a sensor read can fail. */
module Results {

  datatype Option<+T> = None | Some(value: T)

  /** The failure kinds of the sensor reader: the index passed in is not an
      integer, the sensor file cannot be opened, or its first line is not an
      integer literal. */
  datatype Error = ConfigurationError | IOError | ParseError

  datatype Result<+T> = Ok(value: T) | Err(error: Error) {

    predicate IsFailure() {
      Err?
    }

    function PropagateFailure<U>(): Result<U>
      requires Err?
    {
      Err(error)
    }

    function Extract(): T
      requires Ok?
    {
      value
    }
  }
}
