/** Optional values, results and the exceptions the document model can raise. */
module Wrappers {

  datatype Option<T> = None | Some(value: T)

  /** The Java exceptions that the modelled operations throw. */
  datatype Exception =
    | IllegalStateException
    | UnsupportedOperationException
    | CannotUndoException
    | CannotRedoException

  /** A value, or the exception the operation throws instead. */
  datatype Result<T> = Ok(value: T) | Failure(error: Exception)

  /** The outcome of a `void` operation: it returns normally or throws. */
  datatype Outcome = Pass | Fail(error: Exception)
}
