/** Result types shared by the model: a null reference, a returned value or a
    thrown exception, and the work an operation had done when it stopped. */
module Wrappers {

  /** A reference that may be null. */
  datatype Option<+T> = None | Some(value: T)

  /** A value, or the exception raised instead of returning one. */
  datatype Result<+T, +E> = Success(value: T) | Failure(error: E)

  /** Completion of an operation that returns nothing. */
  datatype Outcome<+E> = Pass | Fail(error: E)

  /** What an operation had produced when it returned (`ok`) or when an
      exception cut it short (`!ok`). */
  datatype Partial<+T> = Partial(value: T, ok: bool)

  /** The .NET exceptions the modelled code can raise. */
  datatype Exception =
    | KeyNotFound         // Dictionary indexer on a missing key
    | DuplicateKey        // Dictionary.Add on a key already present
    | ArgumentOutOfRange  // List indexer outside [0, Count)
}
