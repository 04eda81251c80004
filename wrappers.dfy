/** Option and Result datatypes.
    Option stands for a Java reference that may be null; Result stands for a
    computation that may throw the library's "Unparseable argument(s) passed in"
    DateTimeParseException. */
module Wrappers {

  datatype Option<+T> = None | Some(value: T) {
    predicate IsFailure() { None? }

    function PropagateFailure<U>(): Option<U>
      requires None?
    {
      None
    }

    function Extract(): T
      requires Some?
    {
      value
    }

    function GetOr(default: T): T {
      match this
      case Some(v) => v
      case None => default
    }
  }

  /** `Raise(culprit)` is the exception thrown for an argument of an unsupported type. */
  datatype Result<+T, +E> = Ok(value: T) | Raise(culprit: E) {
    predicate IsFailure() { Raise? }

    function PropagateFailure<U>(): Result<U, E>
      requires Raise?
    {
      Raise(culprit)
    }

    function Extract(): T
      requires Ok?
    {
      value
    }
  }
}
