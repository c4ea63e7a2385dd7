/** Failure-compatible result type shared by every codec function.

    The Rust code reports failures in two ways: it returns an `anyhow::Error`
    (`?`, `ensure!`, an explicit `Err`), or it panics (an index or slice out of
    range, an arithmetic overflow in a debug build). Both are kept apart here so
    that a contract can say which of the two an input leads to. */
module Wrappers {

  /** How a fallible operation ends when it does not succeed. */
  datatype Failure =
    | Returned   // an error value is returned to the caller
    | Panicked   // the Rust code panics

  datatype Result<+T> = Ok(value: T) | Err(failure: Failure) {

    predicate IsFailure() {
      Err?
    }

    function PropagateFailure<U>(): Result<U>
      requires Err?
    {
      Err(failure)
    }

    function Extract(): T
      requires Ok?
    {
      value
    }
  }
}
