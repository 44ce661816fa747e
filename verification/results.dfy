/** Option and Result datatypes used to model Python's `None` and raised exceptions.
    Both are failure-compatible, so `:-` propagates the first error as an exception would. */
module Results {

  datatype Option<T> = None | Some(value: T) {
    function GetOr(default: T): T {
      match this
      case Some(v) => v
      case None => default
    }
  }

  /** The exceptions the modelled Python code can raise. */
  datatype Failure =
    | SubstringNotFound(wanted: char)  // `str.index` found no occurrence
    | NoChunks                         // `ValueError("No chunks")`
    | EmptyListIndex                   // `IndexError` from `[][-1]`

  datatype Result<T> = Ok(value: T) | Err(error: Failure) {
    predicate IsFailure() {
      Err?
    }

    function PropagateFailure<U>(): Result<U>
      requires Err?
    {
      Err(error)
    }

    function Extract(): T
      requires Ok?
    {
      value
    }
  }
}
