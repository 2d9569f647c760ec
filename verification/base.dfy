/** Failure-carrying wrappers shared by every module of the model. */
module Base {

  /** A value that may be absent; Python's `None` in the modelled code. */
  datatype Option<+T> = None | Some(value: T)

  /** The outcome of a step that may raise: `Err` carries the exception. */
  datatype Result<+T, +E> = Ok(value: T) | Err(error: E)

  function Min(a: int, b: int): int { if a <= b then a else b }

  function Max(a: int, b: int): int { if a <= b then b else a }
}
