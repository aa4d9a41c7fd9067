/** Results that can be absent, and results that can fail. */
module Wrappers {

  datatype Option<+T> = None | Some(value: T) {

    /** Feeds the value, if there is one, to a step that can itself yield nothing. */
    function AndThen<U>(next: T -> Option<U>): Option<U> {
      match this
      case None => None
      case Some(v) => next(v)
    }
  }

  datatype Result<+T, +E> = Ok(value: T) | Err(error: E) {

    predicate IsFailure() {
      Err?
    }

    function PropagateFailure<U>(): Result<U, E>
      requires Err?
    {
      Err(error)
    }

    function Extract(): T
      requires Ok?
    {
      value
    }
  }
}
