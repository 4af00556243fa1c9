/** The exception classes the package raises (src/pystream/exceptions.py), plus the built-in
    Python exceptions that escape the core unwrapped, and the small wrapper types the model
    uses in place of raising. */
module Exceptions {

  datatype Error =
    // ValidationError subclasses
    | InvalidIPAddressError
    | InvalidPortError
    | InvalidPacketSizeError
    // StreamError subclasses
    | FailedToDataGenerationError
    | FailedToCreatePacketError
    | FailedToSendPacketError
    // built-in exceptions that are not wrapped
    | StructError   // struct.error
    | IndexError    // list index out of range
    | ValueError    // unpacking an iterable of the wrong length

  datatype Option<T> = None | Some(value: T)

  /** A value, or the exception raised instead of returning it. */
  datatype Result<T> = Ok(value: T) | Err(error: Error)

  /** A routine that returns None or raises. */
  datatype Outcome = Pass | Fail(error: Error)
}
