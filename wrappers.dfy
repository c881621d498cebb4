// Shared wrapper types: an optional value and a value-or-error result.
// Every operation whose source throws or returns an error code reports it
// through one of these rather than through a precondition.
module Wrappers {

  datatype Option<T> = None | Some(value: T)

  datatype Result<T, E> = Ok(value: T) | Err(error: E)
  {
    predicate IsFailure() { Err? }
  }

  /** An unsigned byte, as stored in pages, records and keys. */
  type byte = x: int | 0 <= x < 256
}
