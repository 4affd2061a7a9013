/**
 * Values shared by the three stages of the calculator: an optional value,
 * the result of a stage, the error taxonomy and a resolved 12-hour clock time.
 */
module Types {

  datatype Option<+T> = None | Some(value: T)

  /** Every stage returns either a value or a tagged error (the source's TimeError). */
  datatype Result<+T> = Ok(value: T) | Err(error: TimeError)

  datatype Field = Hour | Minute

  /** Which structural rule a malformed token broke. */
  datatype FormatFault =
    | BareMeridiem     // the whole token is just "AM" or "PM"
    | ColonCount       // zero or several ':' after the suffix is removed
    | HourLength       // the hour field is not 1 or 2 characters
    | MinuteLength     // the minute field is not exactly 2 characters
    | RangeSeparator   // the range does not split into exactly two parts on '-'
    | EmptySide        // one side of the range is empty after trimming

  datatype ValueFault = NotANumber | OutOfRange

  /** A time of day as the calculator interprets it: 12-hour components and a meridiem. */
  datatype Clock = Clock(hour: nat, minute: nat, meridiem: string)

  /** The error kinds; the source renders each as a message, the model keeps the tag and its context. */
  datatype TimeError =
    | FormatError(fault: FormatFault)
    | ValueError(field: Field, problem: ValueFault)
    | AmbiguityError
    | OrderingError(rawEnd: string, end: Clock, rawStart: string, start: Clock)
    | InternalIndicatorError(indicator: string)
}
