/** Option and Result, and the Java exceptions the modelled code can raise. */
module Wrappers {

  datatype Option<+T> = None | Some(value: T)

  /** The exceptions that escape from the modelled Java code. */
  datatype Fault =
    | NullPointer       // NullPointerException
    | NumberFormat      // NumberFormatException from Integer.parseInt
    | IndexOutOfBounds  // ArrayIndexOutOfBoundsException
    | IllegalArgument   // IllegalArgumentException (Status.valueOf, short subtask row)
    | DateTimeParse     // DateTimeParseException from LocalDateTime.parse
    | LoadFailure       // ManagerLoadException (missing data file)

  datatype Result<+T> = Success(value: T) | Failure(error: Fault)
}
