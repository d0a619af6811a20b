/** The exceptions the pipeline can raise, and the optional and error-carrying
    values that stand for them. */
module Results {

  /** The Python exception a failing step raises: a malformed number or a
      value chr() refuses is a ValueError, a value too wide for the C int that
      chr() takes an OverflowError, a missing `;` field an IndexError. */
  datatype Error = ValueError | OverflowError | IndexError

  /** The value a step returns, or the exception it raises. */
  datatype Result<T> = Ok(value: T) | Err(error: Error)

  datatype Option<T> = None | Some(value: T)

  /** A step that returns nothing when it succeeds. */
  datatype Outcome = Pass | Fail(error: Error)
}
