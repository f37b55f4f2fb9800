/** Failure-compatible result types and the error kinds the flag library raises. */
module Wrappers {

  /** The exceptions of the library, and the Python built-in ones it lets through. */
  datatype Error =
    | InvalidSymbol          // Operator.InvalidSymbolError
    | InvalidPercentageType  // PercentageFactory.InvalidPercentageTypeError
    | InvalidBucketerType    // BucketerFactory.InvalidBucketerTypeError
    | FlagDoesNotExist       // FlagDoesNotExistError
    | KeyError               // a missing dictionary key
    | TypeError              // an operation on values of the wrong kind
    | AttributeError         // a method called on a value that lacks it
    | ValueError             // AbstractPercentage's guard against non-numbers
    | Unsupported            // a value of a kind this model does not represent

  datatype Option<+T> = None | Some(value: T)

  datatype Result<+T> = Ok(value: T) | Err(error: Error) {
    predicate IsFailure() { Err? }

    function PropagateFailure<U>(): Result<U>
      requires Err?
    {
      Err(error)
    }

    function Extract(): T
      requires Ok?
    {
      value
    }
  }

  /** A result without a value: the operation either completed or raised. */
  datatype Outcome = Pass | Fail(error: Error) {
    predicate IsFailure() { Fail? }

    function PropagateFailure(): Outcome
      requires Fail?
    {
      this
    }
  }
}
