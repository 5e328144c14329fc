/** Small failure-compatible datatypes shared by the whole model. */
module Wrappers {

  /** An optional value: `None` stands for JavaScript's `undefined` where a field may be absent. */
  datatype Option<+T> = None | Some(value: T) {
    function GetOr(default: T): T {
      match this
      case Some(v) => v
      case None => default
    }
  }

  /** The outcome of a call that may throw. `Throws` stands for any exception that
      escapes the call; which exception is raised first is not recorded. */
  datatype Outcome<+T> = Ok(value: T) | Throws {
    predicate IsFailure() {
      Throws?
    }

    function PropagateFailure<U>(): Outcome<U>
      requires Throws?
    {
      Throws
    }

    function Extract(): T
      requires Ok?
    {
      value
    }
  }

  /** A value or an error message, for constructors that throw a described error. */
  datatype Result<+T, +E> = Success(value: T) | Failure(error: E)
}
