/**
 * Outcomes of the interpreter's operations. C++ exceptions become `Fail` with the
 * exact `runtime_error` message; behaviour the C++ leaves undefined (a null
 * dereference, signed overflow) becomes `Undefined`, about which the model claims
 * nothing; `OutOfFuel` is the model's own bound on evaluations that may diverge.
 */
module Outcomes {

  datatype Option<+T> = None | Some(value: T)
  {
    predicate IsFailure() { None? }

    function PropagateFailure<U>(): Option<U>
      requires None?
    {
      None
    }

    function Extract(): T
      requires Some?
    {
      value
    }
  }

  datatype Result<+T> = Ok(value: T) | Fail(msg: string) | Undefined | OutOfFuel
  {
    predicate IsFailure() { !Ok? }

    function PropagateFailure<U>(): Result<U>
      requires !Ok?
    {
      match this
      case Fail(m) => Fail(m)
      case Undefined => Undefined
      case OutOfFuel => OutOfFuel
    }

    function Extract(): T
      requires Ok?
    {
      value
    }
  }
}
