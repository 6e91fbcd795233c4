/**
 * The success-or-error value that stands for the exceptions of the analysis
 * code: a tuple unpacking that fails, an index past the end of a list and an
 * explicit `RuntimeError` all become `Err(e)`.
 */
module Results {

  datatype Result<+T, +E> = Ok(value: T) | Err(error: E) {

    predicate IsFailure() {
      Err?
    }

    function PropagateFailure<U>(): Result<U, E>
      requires Err?
    {
      Err(error)
    }

    function Extract(): T
      requires Ok?
    {
      value
    }
  }
}
