/** Option and Result types, and the Python exceptions that the modelled code lets escape. */
module Wrappers {

  datatype Option<+T> = None | Some(value: T)

  /** The exception classes raised by the modelled code, with the key or message Python attaches. */
  datatype Exception =
    | KeyError(key: string)
    | ValueError(message: string)
    | IndexError(message: string)

  /** A Python call either returns a value or raises an exception. */
  datatype Result<+T> = Ok(value: T) | Err(error: Exception)
}
