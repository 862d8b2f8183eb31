/** Outcomes of the operations of the index: a value, or the exception the
    Python code raises instead of returning. */
module Wrappers {

  datatype Option<+T> = None | Some(value: T)

  /** The two exceptions the core can raise: the `assert` in index
      construction, and a dictionary lookup of a query letter that the
      reference does not contain. */
  datatype Error = AssertionError | KeyError(letter: char)

  datatype Result<+T> = Ok(value: T) | Err(error: Error) {
    predicate IsFailure() { Err? }

    function PropagateFailure<U>(): Result<U>
      requires Err?
    {
      Err(error)
    }

    function Extract(): T
      requires Ok?
    {
      value
    }
  }
}
