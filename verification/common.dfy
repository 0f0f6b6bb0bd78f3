/** Outcome types shared by the whole model.

    The program signals failure with Python exceptions; the model returns them
    as values instead, so that every error path is visible in a contract. */
module Common {

  /** An optional value, standing for Python's `None` versus a present value. */
  datatype Option<+T> = None | Some(value: T)

  /** The Python exceptions the modelled code raises and its callers catch. */
  datatype Exception = ValueError | KeyError | IndexError

  /** Either a value or the exception raised while computing it. */
  datatype Result<+T> = Ok(value: T) | Err(error: Exception)
}
