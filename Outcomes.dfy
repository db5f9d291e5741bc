/** Values that stand in for Java's null references and runtime exceptions. */
module Outcomes {

  /** A reference that may be null (Some) or not (None). */
  datatype Option<T> = None | Some(value: T)

  /** The unchecked exceptions the modelled code can raise. */
  datatype Failure =
    | IndexOutOfBounds   // StringIndexOutOfBoundsException / ArrayIndexOutOfBoundsException
    | NullPointer        // NullPointerException

  /** Either a normal return value or the exception that ended the call. */
  datatype Result<T> = Ok(value: T) | Err(failure: Failure)
}
