/** Results of operations that can throw: the C# exception kind is kept. */
module Outcomes {

  /** The exception types the modelled code throws. `NotConverged` is not a C# exception:
      it marks a loop that, in exact arithmetic, did not meet its stopping rule within
      the fuel it was given (the C# loop stops only because decimal rounding makes the
      iterates repeat). */
  datatype Exception =
    | ArgumentException
    | ArgumentOutOfRangeException
    | OverflowException
    | DivideByZeroException
    | IndexOutOfRangeException
    | GenericException
    | NotConverged

  datatype Result<T> = Ok(value: T) | Err(error: Exception)

  /** A reference that may be null. */
  datatype Option<T> = None | Some(value: T)
}
