/** Option and Result types used throughout the model. A `Result` error stands for a
    panic of the Rust code (a failed `unwrap`, a failed `debug_assert!`, an integer
    underflow or a string slice off a character boundary). */
module Wrappers {

  datatype Option<+T> = None | Some(value: T) {

    /** The value, or `default` when there is none (Rust's `unwrap_or`). */
    function UnwrapOr(default: T): (r: T) {
      match this
      case Some(v) => v
      case None => default
    }

    /** This option, or `other` when it is empty (Rust's `Option::or`). */
    function Or(other: Option<T>): (r: Option<T>) {
      match this
      case Some(_) => this
      case None => other
    }
  }

  datatype Result<+R, +E> = Ok(value: R) | Err(error: E) {

    predicate IsFailure() {
      Err?
    }

    function PropagateFailure<U>(): (r: Result<U, E>)
      requires Err?
    {
      Err(error)
    }

    function Extract(): (r: R)
      requires Ok?
    {
      value
    }
  }
}
