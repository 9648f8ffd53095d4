/** Optional values and results with an error, used at the tool's boundary. */
module Wrappers {

  /** A value that may be absent: a command-line field given as `-` or not given at all. */
  datatype Option<T> = None | Some(value: T)

  /** The outcome of a run: a value, or the error that stopped it. */
  datatype Result<T, E> = Success(value: T) | Failure(error: E)
}
