/** Option, Result and Outcome: the values the model uses where Python returns
    None, returns normally or raises. */
module Wrappers {

  datatype Option<T> = None | Some(value: T)

  /** A value, or the exception that Python would have raised instead. */
  datatype Result<T, E> = Ok(value: T) | Err(error: E) {
    predicate IsFailure() { Err? }

    function PropagateFailure<U>(): Result<U, E>
      requires Err?
    {
      Err(error)
    }

    function Extract(): T
      requires Ok?
    {
      value
    }
  }

  /** A statement that either completes or raises. */
  datatype Outcome<E> = Pass | Fail(error: E)
}
