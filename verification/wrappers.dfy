/** Option and Result, failure-compatible so that `:-` propagates errors the way
    the modelled Python code propagates exceptions. */
module Wrappers {

  datatype Option<+T> = None | Some(value: T) {
    predicate IsFailure() { None? }

    function PropagateFailure<U>(): Option<U>
      requires None?
    {
      None
    }

    function Extract(): T
      requires Some?
    {
      value
    }
  }

  /** The exceptions the modelled code can raise and does not catch. */
  datatype Error =
    | NotAnInteger(text: string)   // int() on a string that is not a decimal literal
    | ZeroDivision                 // a zero frame-rate component
    | EmptySignal                  // correlating an empty sample array
    | DenominatorBoundTooSmall     // limit_denominator with a bound below one

  datatype Result<+R> = Success(value: R) | Failure(error: Error) {
    predicate IsFailure() { Failure? }

    function PropagateFailure<U>(): Result<U>
      requires Failure?
    {
      Failure(error)
    }

    function Extract(): R
      requires Success?
    {
      value
    }
  }
}
