/** Failure-carrying return types: the Python code signals absence with `None`
    and failure with exceptions; the model returns these instead. */
module Wrappers {

  /** `None` or a present value. */
  datatype Option<+T> = None | Some(value: T)

  /** The value of a successful call, or the exception it raised. */
  datatype Result<+T, +E> = Ok(value: T) | Err(error: E) {

    predicate IsFailure() {
      Err?
    }

    function PropagateFailure<U>(): Result<U, E>
      requires Err?
    {
      Err(error)
    }

    function Extract(): T
      requires Ok?
    {
      value
    }
  }
}

/** The exceptions the modelled code raises or lets escape. */
module Errors {

  datatype Error =
    /** A required key is missing from a JSON object (`KeyError`). */
    | KeyError(key: string)
    /** A value has the wrong shape for the operation applied to it (`TypeError`). */
    | TypeError
    /** `ValueError` with its message. */
    | ValueError(message: string)
    /** The parser's own `ParseError` (src/cur/core/parser.py:6-7) with its message. */
    | ParseError(message: string)
    /** The domain's `ParseError`, imported by src/cur/core/entity.py from
        `cur.core.exception`, with its message. A different class from the
        parser's: an `except` for one does not catch the other. */
    | DomainParseError(message: string)
    /** The HTTP request could not be completed at all. */
    | TransportError
    /** `raise_for_status` on a response whose status is not 2xx. */
    | HttpStatusError(status: int)
    /** `response.json()` on a body that is not JSON text. */
    | JsonDecodeError
}
