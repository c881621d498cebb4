// The errors the engine's catalog, value conversions and executors throw
// (the exception classes are declared in errors.h, which is not part of
// this model; only their kinds are).
module Errors {

  datatype DbError =
    | ResultOutOfRange
    | DateTimeFormat
    | StringOverflow
    | TableExists
    | TableNotFound
    | IndexExists
    | IndexNotFound
    | ColumnNotFound
    | InvalidValueCount
    | IncompatibleType
    | AggregateError
    | UnsupportedType
    /** A TransactionAbortException raised by the lock manager or a join executor. */
    | Aborted
}
