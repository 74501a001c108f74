/**
  Failure-compatible wrappers shared by the model: `Option` stands for a Java
  reference that may be null, `Result` for a computation that may throw.
 */
module Results {

  /** A possibly-null Java reference. */
  datatype Option<+T> = None | Some(value: T)

  /** Either a value or the exception that aborted the computation. */
  datatype Result<+T, +E> = Ok(value: T) | Err(error: E) {

    predicate IsFailure() {
      Err?
    }

    function PropagateFailure<U>(): Result<U, E>
      requires Err?
    {
      Err(error)
    }

    function Extract(): T
      requires Ok?
    {
      value
    }
  }
}
