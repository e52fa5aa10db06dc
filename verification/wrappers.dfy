/** Option and Result, and the Java exceptions the modelled code can raise.
    A `Result` is failure-compatible, so `:-` propagates an exception the way
    an unchecked Java exception unwinds the caller. */
module Wrappers {

  datatype Option<+T> = None | Some(value: T) {
    predicate IsFailure() { None? }

    function PropagateFailure<U>(): Option<U>
      requires None?
    {
      None
    }

    function Extract(): T
      requires Some?
    {
      value
    }

    function GetOr(default: T): T {
      match this
      case Some(v) => v
      case None => default
    }
  }

  /** The exception classes the modelled code throws or lets escape. */
  datatype Exception =
    | NullPointer
    | IllegalArgument(reason: string)
    | NumberFormat(input: string)
    | IndexOutOfBounds
    | IllegalAccess
    | ClassCast
    | UnsupportedOperation
    | Instantiation
    | QueryConstruction
    | AccessFailure
    | Runtime(reason: string)

  datatype Result<+T> = Ok(value: T) | Err(error: Exception) {
    predicate IsFailure() { Err? }

    function PropagateFailure<U>(): Result<U>
      requires Err?
    {
      Err(error)
    }

    function Extract(): T
      requires Ok?
    {
      value
    }

    /** Replaces the exception, as a `catch` that rethrows a wrapper does. */
    function MapError(wrap: Exception): (r: Result<T>)
      ensures r.Ok? <==> Ok?
      ensures Ok? ==> r == this
      ensures Err? ==> r.error == wrap
    {
      if Ok? then this else Err(wrap)
    }
  }
}
