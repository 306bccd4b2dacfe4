/** Failure-compatible wrappers shared by the model: the optional values and
    `Result`s that the Rust code returns, unwraps or propagates with `?`. */
module Wrappers {

  datatype Option<+T> = None | Some(value: T)

  datatype Result<+T, +E> = Ok(value: T) | Err(error: E) {
    predicate IsFailure() { Err? }

    function PropagateFailure<U>(): Result<U, E>
      requires Err?
    {
      Err(error)
    }

    function Extract(): T
      requires Ok?
    {
      value
    }
  }

  /** A result that carries no value on success (Rust's `Result<(), E>`). */
  datatype Outcome<+E> = Pass | Fail(error: E)
}
