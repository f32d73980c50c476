/** Option and exception-carrying results shared by every module. */
module Wrappers {

  datatype Option<+T> = None | Some(value: T)

  /** The Python exceptions the modelled code can raise and does not catch. */
  datatype PyError =
    | ZeroDivisionError | ValueError | TypeError | IndexError | KeyError
    | InvalidOperation  // decimal.InvalidOperation
    | OverflowError

  /** The outcome of a Python call: the value it returns, or the exception it raises. */
  datatype Result<+T> = Ok(value: T) | Raised(error: PyError)
}
