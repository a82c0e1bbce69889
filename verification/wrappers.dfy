/** Failure-compatible wrappers shared by the whole model. */
module Wrappers {

  /** A value that may be absent: Python's `None`. */
  datatype Option<+T> = None | Some(value: T) {
    function GetOr(default: T): T {
      match this
      case Some(v) => v
      case None => default
    }
  }

  /**
   * The ways an operation of the library can stop without a result.
   * ZeroDivision is Python's ZeroDivisionError; NotANumber stands for a
   * float computation that would leave an infinity or NaN behind (which
   * real numbers cannot hold); NotFound is the KeyError of a missing force
   * name; Unresolved is the KeyError of an unknown link identity;
   * Uninitialized is reading a parameter array that initialize never set;
   * OutOfRange is an IndexError, a node index past a parameter array.
   */
  datatype Fault =
    | ZeroDivision
    | NotANumber
    | NotFound(name: string)
    | Unresolved(key: int)
    | Uninitialized
    | OutOfRange(index: int)

  datatype Result<+T> = Ok(value: T) | Err(fault: Fault) {
    predicate IsFailure() {
      Err?
    }

    function PropagateFailure<U>(): Result<U>
      requires Err?
    {
      Err(fault)
    }

    function Extract(): T
      requires Ok?
    {
      value
    }
  }

  function Abs(v: real): real {
    if v < 0.0 then -v else v
  }

  function Min(a: real, b: real): real {
    if a <= b then a else b
  }

  function Max(a: real, b: real): real {
    if a >= b then a else b
  }
}
