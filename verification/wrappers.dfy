/** Failure-carrying values shared by every module of the model.

    The engine reports failures by throwing .NET exceptions (a missing
    dictionary key, a duplicate key, an array index out of range, ...).
    The model turns each of those into an explicit `Err` value so that the
    error paths are part of every contract instead of a precondition. */
module Wrappers {

  /** The exceptions the modelled code can raise, plus `Degenerate` for the
      IEEE outcomes (NaN, division by zero) that the real-valued model does
      not reproduce. */
  datatype Error =
    | MissingKey         // KeyNotFoundException from a Dictionary indexer
    | DuplicateKey       // ArgumentException from Dictionary.Add
    | IndexOutOfRange    // IndexOutOfRangeException from an array access
    | InvalidCast        // InvalidCastException from a component downcast
    | NegativeSize       // OverflowException from `new T[n]` with n < 0
    | AssertionFailed    // DebugUtil.Assert failure (process exit)
    | Degenerate         // NaN / infinity territory, outside the model
    | OutOfMemory        // OutOfMemoryException from a collection that outgrows allocation

  datatype Option<+T> = None | Some(value: T)

  datatype Result<+T> = Ok(value: T) | Err(error: Error) {
    predicate IsFailure() { Err? }

    function PropagateFailure<U>(): Result<U>
      requires Err?
    {
      Err(error)
    }

    function Extract(): T
      requires Ok?
    {
      value
    }
  }
}
