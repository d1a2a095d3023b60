/** Option, Result and Outcome types, and the exceptions the modelled code raises. */
module Wrappers {

  datatype Option<+T> = None | Some(value: T)

  /** The Python exceptions that the modelled operations raise to their callers. */
  datatype Error =
    | KeyError(key: string)
    | ValueError(message: string)
    | TypeError(message: string)
    | AttributeError(name: string)
    | NotImplementedError(message: string)
    | RuntimeError(message: string)
    | DecodeError                 // binascii.Error raised by base64 decoding
    | MultipleResultsFound        // raised by a query's .one() on several rows

  datatype Result<+T> = Ok(value: T) | Err(error: Error)

  /** The result of an operation that returns nothing but may raise. */
  datatype Outcome = Pass | Fail(error: Error)
}
