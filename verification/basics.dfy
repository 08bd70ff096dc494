/** Failure-carrying datatypes shared by every module of the model.

    The source is Python: an operation either returns a value or raises an
    exception.  `Result` makes the raise explicit, and `PyError` names the
    exception class the source raises together with its message text.
 */
module Basics {

  /** A Python `Optional[T]`: `None` or a present value. */
  datatype Option<+T> = None | Some(value: T)

  /** The exception classes the modelled code raises. */
  datatype PyError =
    | ValueError(message: string)
    | AssertionError(message: string)
    | AttributeError(message: string)
    | IndexError(message: string)
    | KeyError(key: string)
    | SyntaxError(message: string)

  /** Either the returned value or the raised exception. */
  datatype Result<+T> = Ok(value: T) | Err(error: PyError)

  /** Python truthiness of an optional string: `None` and `""` are false. */
  predicate Truthy(s: Option<string>)
  {
    s.Some? && s.value != ""
  }
}
