/** Option, Result and the error values shared by the model of app.py. */
module Wrappers {

  /** A value that may be missing. */
  datatype Option<+T> = None | Some(value: T)

  /** A value, or the error that the Python code would raise instead. */
  datatype Result<+T, +E> = Success(value: T) | Failure(error: E)

  /** The exceptions app.py lets escape to its caller. */
  datatype Error =
    | PayloadUnavailable  // `.text` of a non-streamed response raised; not caught locally
    | IndexOutOfRange     // `split(...)[1]` on a one-piece list
}
