// Transactions as the lock manager, the transaction manager and the
// executors see them (the Transaction class and its sets; the header that
// declares them is not part of this model). A write record keeps the table,
// the rid and, for deletes and updates, the record image before the write.
module Txn {
  import opened Wrappers
  import opened IxNode

  const INVALID_TXN_ID: int := -1
  const INVALID_LSN: int := -1

  datatype TxnState = Default | Growing | Shrinking | Committed | Aborted

  datatype AbortReason =
    | LockOnShrinking
    | UpgradeConflict
    | DeadlockPrevention
    | CommitAbortedTransaction
    | NestloopjoinFileFailure

  datatype LockDataType = TableLock | RecordLock | GapLock

  /** What a lock is on: a table, a record of a table, or a gap of an index. */
  datatype LockDataId = LockDataId(fd: int, rid: Rid, kind: LockDataType)

  /** A table-level lock id; its rid is fixed at (-1, -1). */
  function TableId(fd: int): (id: LockDataId)
    ensures id.kind == TableLock && id.fd == fd
  {
    LockDataId(fd, Rid(-1, -1), TableLock)
  }

  datatype WType = InsertTuple | DeleteTuple | UpdateTuple

  datatype WriteRecord = WriteRecord(kind: WType, table: string, rid: Rid, image: seq<byte>)

  class Transaction {
    const id: int
    var state: TxnState
    /** The locks taken, each once, in the order they were taken. */
    var lockSet: seq<LockDataId>
    var writeSet: seq<WriteRecord>
    var indexLatchPages: seq<int>
    var indexDeletedPages: seq<int>
    var prevLsn: int

    /** A new transaction: DEFAULT, holding nothing, with no log record yet. */
    constructor(id: int)
      ensures this.id == id && state == Default && prevLsn == INVALID_LSN
      ensures lockSet == [] && writeSet == [] && indexLatchPages == [] && indexDeletedPages == []
    {
      this.id := id;
      state := Default;
      lockSet := [];
      writeSet := [];
      indexLatchPages := [];
      indexDeletedPages := [];
      prevLsn := INVALID_LSN;
    }
  }
}
