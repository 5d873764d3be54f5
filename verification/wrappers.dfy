/** Failure-carrying values: `Option` for an absent value, `Result` for a
    computation that may raise one of the library's exceptions. `Option` can
    be used with `:-`; `Result` is taken apart with `match`. */
module Wrappers {

  datatype Option<+T> = None | Some(value: T) {
    predicate IsFailure() {
      None?
    }

    function PropagateFailure<U>(): Option<U>
      requires None?
    {
      None
    }

    function Extract(): T
      requires Some?
    {
      value
    }
  }

  datatype Result<+T, +E> = Success(value: T) | Failure(error: E)
}
