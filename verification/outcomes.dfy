/** Option, the outcome of an operation that may raise, and the error
    taxonomy of the persistence layer. */
module Outcomes {

  /** A possibly missing value (Ruby's `nil` stands for `None`). */
  datatype Option<T> = None | Some(value: T) {
    function GetOr(default: T): T {
      match this
      case Some(v) => v
      case None => default
    }
  }

  /** The exceptions the modelled code raises.  The first seven are the
      library's own exception classes; `ParseError` is raised by the JSON
      parser, `FrozenRecord` by Ruby when a frozen record's instance
      variables are assigned, and `RuntimeFault` stands for the
      `NoMethodError`/`TypeError`/`NameError` that Ruby raises when the code
      calls a method on `nil` (or on an object that lacks it). */
  datatype Error =
    | NullId
    | RecordExists
    | RecordDoesntExist
    | RecordNotFound
    | RecordNotSaved
    | IndexRequired
    | InvalidParams
    | ParseError
    | FrozenRecord
    | RuntimeFault

  /** Either a value or a raised error; usable with `:-`. */
  datatype Outcome<T> = Ok(value: T) | Raise(error: Error) {
    predicate IsFailure() {
      Raise?
    }

    function PropagateFailure<U>(): Outcome<U>
      requires Raise?
    {
      Raise(error)
    }

    function Extract(): T
      requires Ok?
    {
      value
    }
  }
}
