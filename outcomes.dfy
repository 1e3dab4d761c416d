/** Error kinds and result wrappers shared by the container model. */
module Outcomes {

  /** The exceptions the container raises, by the names Python gives them. */
  datatype Error = KeyError | IndexError | ValueError | AttributeError

  /** A value, or the exception raised instead of returning one. */
  datatype Result<T> = Ok(value: T) | Err(error: Error)

  /** The outcome of an operation that returns nothing when it succeeds. */
  datatype Outcome = Pass | Fail(error: Error)

  /** An optional argument or an optional value. */
  datatype Option<T> = None | Some(value: T)
}
