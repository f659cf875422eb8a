/** Failure-carrying results for the operations that raise in the original. */
module Wrappers {

  /** The exceptions the modelled code can raise. */
  datatype Error =
    | IndexError            // a missing input line or cell, or a missing digit run
    | ValueError            // `int()` of a string that is not a number
    | GrowthRateOutOfRange  // the cancer constructor's `growth_rate` check

  datatype Result<+T> = Ok(value: T) | Err(error: Error)
  {
    predicate IsFailure() { Err? }

    function PropagateFailure<U>(): Result<U>
      requires Err?
    {
      Err(error)
    }

    function Extract(): T
      requires Ok?
    {
      value
    }
  }

  datatype Outcome = Pass | Fail(error: Error)
}
