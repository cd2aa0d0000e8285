/** The outcome of a step that can fail with a diagnostic message. It stands
    for the .NET exceptions the pipeline throws and catches: a failing field
    parse, an unknown flag, a missing column or a failed bulk write. */
module Results {

  datatype Result<+T> = Ok(value: T) | Err(msg: string) {

    /** True if this is a failure (needed for `:-`). */
    predicate IsFailure() {
      Err?
    }

    /** Carries the failure's message over to a result of another type. */
    function PropagateFailure<U>(): Result<U>
      requires Err?
    {
      Err(msg)
    }

    /** The success value. */
    function Extract(): T
      requires Ok?
    {
      value
    }
  }
}
