/**
 * Success/failure carriers for operations that throw in the C# source,
 * and the exceptions the core throws.
 */
module Outcomes {

  datatype Option<+T> = None | Some(value: T)

  datatype Result<+T, +E> = Success(value: T) | Failure(error: E)

  /** The result of an operation that returns nothing on success. */
  datatype Outcome<+E> = Pass | Fail(error: E)

  /**
   * The exceptions thrown by the catalogue and the entities, each with the
   * parameter name (nameof) or the missing id the source puts in it.
   */
  datatype Error =
    | ArgumentException(paramName: string)
    | ArgumentOutOfRangeException(paramName: string)
    | KeyNotFoundException(id: int)
}
