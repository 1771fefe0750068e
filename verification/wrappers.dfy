/** Failure-carrying results shared by every module of the model.

    The Python code signals errors with exceptions; the model returns a
    `Result` whose `Failure` names the exception the source would raise.
 */
module Wrappers {

  datatype Option<+T> = None | Some(value: T)

  /** Which Python exception the source raises on the failing path. */
  datatype Failure =
    | OutOfRange      // ValueError from pymeasure's strict_range
    | Unparsable      // ValueError from int() / float() / list.index()
    | IndexOutOfRange // IndexError from a list or string subscript
    | UnboundLocal    // UnboundLocalError (a local read before assignment)
    | NegativeSleep   // ValueError from time.sleep() on a negative duration

  datatype Result<+R> = Ok(value: R) | Err(error: Failure) {
    predicate IsFailure() { Err? }

    function PropagateFailure<U>(): Result<U>
      requires Err?
    {
      Err(error)
    }

    function Extract(): R
      requires Ok?
    {
      value
    }
  }
}
