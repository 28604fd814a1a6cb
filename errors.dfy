/** Failure-carrying values shared by the model: the Python exceptions the
    modelled code raises become the error arm of a Result. */
module Errors {

  datatype Option<+T> = None | Some(value: T)

  /** The exception classes the modelled code raises. `Failure` is a bare
      `Exception(...)` raised with a message. */
  datatype PyError =
    | TypeError
    | ValueError
    | IndexError
    | KeyError
    | AssertionError
    | Failure(message: string)

  datatype Result<+T> = Ok(value: T) | Err(error: PyError)

  /** Outcome of a call whose only effect is on state: it either returns or raises. */
  datatype Outcome = Done | Raised(error: PyError)
}
