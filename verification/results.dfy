/** Failure-compatible wrappers used across the model: `Option` stands for a
    Python value that may be `None`, `Result` for a computation that may raise. */
module Results {

  datatype Option<+T> = None | Some(value: T)

  /** `Err` carries the exception the Python code would raise. */
  datatype Result<+T, +E> = Ok(value: T) | Err(error: E) {

    predicate IsFailure() {
      Err?
    }

    function PropagateFailure<U>(): Result<U, E>
      requires Err?
    {
      Err(error)
    }

    function Extract(): T
      requires Ok?
    {
      value
    }
  }
}
