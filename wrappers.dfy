/** Nullable values and success-or-error results, shared by the transform
    client and the view-state controller. */
module Wrappers {

  /** A value that may be absent: TypeScript's `T | null` / `T | undefined`. */
  datatype Option<+T> = None | Some(value: T)

  /** The outcome of an operation that either returns a value or throws an
      error carrying a message. */
  datatype Result<+T, +E> = Success(value: T) | Failure(error: E)
}
