// Option and Result, plus the exception kinds the modelled Python code raises.

module Wrappers {

  datatype Option<+T> = None | Some(value: T) {
    predicate IsFailure() {
      None?
    }

    function PropagateFailure<U>(): Option<U>
      requires None?
    {
      None
    }

    function Extract(): T
      requires Some?
    {
      value
    }

    function GetOr(default: T): T
    {
      match this
      case None => default
      case Some(v) => v
    }
  }

  /** The Python exception classes raised by the modelled code. Messages are
    * kept where they are plain text; a message that would embed the Python
    * repr of a list or dict carries the offending value instead. */
  datatype Error =
    | ValueError(msg: string)
    | TypeError(msg: string)
    | KeyError(key: string)
    | IndexError
    | AttributeError(msg: string)
    | OSError(msg: string)

  datatype Result<+T> = Ok(value: T) | Err(error: Error) {
    predicate IsFailure() {
      Err?
    }

    function PropagateFailure<U>(): Result<U>
      requires Err?
    {
      Err(error)
    }

    function Extract(): T
      requires Ok?
    {
      value
    }
  }
}
