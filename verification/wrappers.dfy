/** Failure-carrying datatypes used across the model: `Option` for Rust's
    `Option<T>` and `Result` for Rust's `Result<T, E>`. */
module Wrappers {

  datatype Option<+T> = None | Some(value: T) {

    /** Rust's `unwrap_or`. */
    function GetOr(default: T): T {
      match this
      case Some(v) => v
      case None => default
    }
  }

  datatype Result<+R, +E> = Ok(value: R) | Err(error: E) {

    predicate IsFailure() {
      Err?
    }

    function PropagateFailure<U>(): Result<U, E>
      requires Err?
    {
      Err(error)
    }

    function Extract(): R
      requires Ok?
    {
      value
    }
  }
}
