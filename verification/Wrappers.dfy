/** Failure-compatible datatypes shared by every component. */
module Wrappers {

  datatype Option<+T> = None | Some(value: T)

  /** A source routine that may raise (or return an `Err`) gives one of these. */
  datatype Result<+T, +E> = Ok(value: T) | Err(error: E) {

    predicate IsFailure() {
      Err?
    }

    function PropagateFailure<U>(): Result<U, E>
      requires Err?
    {
      Err(error)
    }

    function Extract(): T
      requires Ok?
    {
      value
    }
  }
}
