/** Outcomes of the modelled Python calls: a value, or one of the
    exceptions the core raises. */
module Errors {

  /** The Python exceptions raised by the modelled code. `OverflowError`
      is not a subclass of `ValueError`. A `KeyError` names the mark it
      found missing; no other part of an exception's message is kept. */
  datatype Exception = ValueError | KeyError(mark: string) | OverflowError

  /** A call that either returns a value or raises. */
  datatype Result<+T> = Ok(value: T) | Err(error: Exception)

  /** The call raised `KeyError`, whatever mark it names. */
  predicate IsKeyError<T>(r: Result<T>) {
    r.Err? && r.error.KeyError?
  }

  /** Python's `Optional[...]`: `None` or a value. */
  datatype Option<+T> = None | Some(value: T)
}
