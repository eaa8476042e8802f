/** Error kinds and failure-carrying results shared by the whole model. */
module Base {

  /** The kinds of failure the address book's core can raise. Python raises a
      ValueError (or OverflowError) with a message; only the kind is modelled. */
  datatype Error =
    | InvalidPhone     // Phone(...) rejects a value that is not ten digits
    | InvalidBirthday  // Birthday(...) rejects bad text, impossible dates and future dates alike
    | DuplicatePhone   // Record.add_phone on a value the record already holds
    | PhoneNotFound    // Record.edit_phone on a value the record does not hold
    | ReplaceFailed    // date.replace(year=...) gives no valid date (29 February, year 10000)
    | DateOverflow     // date + timedelta leaves the range 0001-01-01 .. 9999-12-31

  datatype Option<+T> = None | Some(value: T)

  datatype Result<+T> = Success(value: T) | Failure(error: Error)

  /** The result of an operation that only succeeds or fails. */
  datatype Outcome = Pass | Fail(error: Error)
}
