// The transaction manager (src/transaction/transaction_manager.cpp): begin
// registers a new transaction, commit and abort release its locks, clear
// its sets, set its final state and drop it from the transaction map; abort
// first undoes the write set from the last write back to the first, on the
// tables of the Tables module. With logging on, begin, commit and abort
// write their BEGIN, COMMIT and ABORT records (commit and abort then force
// them to the log file), and abort logs a compensating record before it
// undoes each write.
module TxnManager {
  import opened Wrappers
  import opened IxNode
  import opened Txn
  import opened Locking
  import opened Tables
  import opened Logging
  import opened IndexWrites

  /** Removing a transaction's requests twice is removing them once. */
  lemma {:induction false} RemoveTxnTwice(q: seq<LockRequest>, t: int)
    ensures RemoveTxn(RemoveTxn(q, t), t) == RemoveTxn(q, t)
    decreases |q|
  {
    if q != [] {
      RemoveTxnTwice(q[1..], t);
      if q[0].txnId != t {
        var rest := RemoveTxn(q[1..], t);
        assert ([q[0]] + rest)[1..] == rest;
      }
    }
  }

  /** Transaction t has no request left on queue q. */
  predicate NoRequestOf(q: seq<LockRequest>, t: int)
  {
    forall j :: 0 <= j < |q| ==> q[j].txnId != t
  }

  /** What unlock leaves of a queue holds no request of the transaction. */
  lemma RemovedHasNone(q: seq<LockRequest>, t: int)
    ensures NoRequestOf(RemoveTxn(q, t), t)
  {
    var r := RemoveTxn(q, t);
    forall j | 0 <= j < |r| ensures r[j].txnId != t {
      assert r[j] in r;
    }
  }

  /**
   * table is table0 with transaction t unlocked from each id of ids in
   * turn; no request of t is left on those queues.
   */
  ghost predicate ReleasedFrom(table0: map<LockDataId, LockQueue>, ids: seq<LockDataId>, t: int, table: map<LockDataId, LockQueue>)
  {
    && table == UnlockedAll(table0, ids, t)
    && forall k :: k in ids ==> k in table && NoRequestOf(table[k].requests, t)
  }

  /** lock_table_[id] as seen in a lock table: the empty queue when there is none. */
  function QueueIn(table: map<LockDataId, LockQueue>, id: LockDataId): LockQueue
  {
    if id in table then table[id] else LockQueue([], false)
  }

  /** The lock table after unlocking id for transaction t. */
  function Unlocked(table: map<LockDataId, LockQueue>, id: LockDataId, t: int): map<LockDataId, LockQueue>
  {
    table[id := LockQueue(RemoveTxn(QueueIn(table, id).requests, t), QueueIn(table, id).upgrading)]
  }

  /** The lock table after unlocking each id of ids in turn. */
  function UnlockedAll(table: map<LockDataId, LockQueue>, ids: seq<LockDataId>, t: int): map<LockDataId, LockQueue>
    decreases |ids|
  {
    if ids == [] then table else Unlocked(UnlockedAll(table, ids[..|ids| - 1], t), ids[|ids| - 1], t)
  }

  /**
   * Unlocking a list of ids, repeats allowed, removes the transaction's
   * requests from exactly the queues listed and leaves the other queues as
   * they were.
   */
  lemma {:induction false} UnlockedAllQueues(table: map<LockDataId, LockQueue>, ids: seq<LockDataId>, t: int)
    ensures forall k :: k in ids ==>
      k in UnlockedAll(table, ids, t)
      && UnlockedAll(table, ids, t)[k] == LockQueue(RemoveTxn(QueueIn(table, k).requests, t), QueueIn(table, k).upgrading)
    ensures forall k :: k !in ids ==>
      (k in UnlockedAll(table, ids, t) <==> k in table)
      && (k in table ==> UnlockedAll(table, ids, t)[k] == table[k])
    decreases |ids|
  {
    if ids != [] {
      var front := ids[..|ids| - 1];
      var id := ids[|ids| - 1];
      UnlockedAllQueues(table, front, t);
      assert ids == front + [id];
      if id in front {
        RemoveTxnTwice(QueueIn(table, id).requests, t);
      }
    }
  }

  /** A BEGIN, COMMIT or ABORT record of transaction txn, chained to its record prev. */
  function TxnLog(kind: LogType, txn: int, prev: int, len: nat): (r: LogRecord)
    ensures r.kind == kind && r.txnId == txn && r.prevLsn == prev && r.totLen == len
  {
    LogRecord(kind, 0, txn, prev, len, [], Rid(-1, -1), [], [])
  }

  /** The record at w's rid in the tables as they are, [] when there is none. */
  function Current(db: Db, w: WriteRecord): seq<byte>
  {
    if w.table in db && w.rid in db[w.table].records then db[w.table].records[w.rid] else []
  }

  /**
   * The compensating record abort logs before undoing w: a DELETE with
   * the inserted record for an INSERT, an INSERT with the saved image for
   * a DELETE, and for an UPDATE an UPDATE whose new value is the saved image
   * and whose old value is the record being replaced.
   */
  function Compensation(db: Db, w: WriteRecord, txn: int, prev: int, len: nat): (r: LogRecord)
    ensures r.txnId == txn && r.prevLsn == prev && r.table == w.table && r.rid == w.rid && r.totLen == len
    ensures w.kind == InsertTuple ==> r.kind == DeleteLog
    ensures w.kind == DeleteTuple ==> r.kind == InsertLog && r.value == w.image
    ensures w.kind == UpdateTuple ==> r.kind == UpdateLog && r.value == w.image && r.oldValue == Current(db, w)
  {
    match w.kind
    case InsertTuple => DataLog(DeleteLog, txn, prev, len, w.table, w.rid, Current(db, w), [])
    case DeleteTuple => DataLog(InsertLog, txn, prev, len, w.table, w.rid, w.image, [])
    case UpdateTuple => DataLog(UpdateLog, txn, prev, len, w.table, w.rid, w.image, Current(db, w))
  }

  /**
   * The compensating records of undoing write set ws from its last record
   * to its first, the first numbered lsn and chained to prev, each later
   * one numbered and chained after the one before it.
   */
  function Compensations(db: Db, ws: seq<WriteRecord>, txn: int, prev: int, lsn: int, len: nat): (rs: seq<LogRecord>)
    ensures |rs| == |ws|
    decreases |ws|
  {
    if ws == [] then []
    else
      var w := ws[|ws| - 1];
      [Compensation(db, w, txn, prev, len).(lsn := lsn)] + Compensations(Undo(db, w), ws[..|ws| - 1], txn, lsn, lsn + 1, len)
  }

  /**
   * The records abort logs: the compensating records of ws numbered from
   * lsn, then the ABORT record, chained to the last of them (to prev when
   * there are none).
   */
  function AbortRecords(db: Db, ws: seq<WriteRecord>, txn: int, prev: int, lsn: int, dataLen: nat, hdrLen: nat): (rs: seq<LogRecord>)
    ensures |rs| == |ws| + 1 && rs[|ws|].kind == AbortLog && rs[|ws|].lsn == lsn + |ws|
  {
    Compensations(db, ws, txn, prev, lsn, dataLen)
      + [TxnLog(AbortLog, txn, if ws == [] then prev else lsn + |ws| - 1, hdrLen).(lsn := lsn + |ws|)]
  }

  /**
   * Compensating record k of rs is numbered lsn + k, belongs to txn, is
   * chained to the record before it (to prev for the first) and compensates
   * write |ws| - 1 - k.
   */
  predicate CompAt(rs: seq<LogRecord>, ws: seq<WriteRecord>, k: int, txn: int, prev: int, lsn: int)
    requires 0 <= k < |rs| == |ws|
  {
    && rs[k].lsn == lsn + k && rs[k].txnId == txn
    && rs[k].prevLsn == (if k == 0 then prev else lsn + k - 1)
    && rs[k].rid == ws[|ws| - 1 - k].rid && rs[k].table == ws[|ws| - 1 - k].table
  }

  /** The compensating records are numbered in undo order and chained one to the next. */
  lemma {:induction false} CompensationsChain(db: Db, ws: seq<WriteRecord>, txn: int, prev: int, lsn: int, len: nat)
    ensures forall k :: 0 <= k < |ws| ==> CompAt(Compensations(db, ws, txn, prev, lsn, len), ws, k, txn, prev, lsn)
    decreases |ws|
  {
    if ws != [] {
      var n := |ws| - 1;
      var w := ws[n];
      CompensationsChain(Undo(db, w), ws[..n], txn, lsn, lsn + 1, len);
      var tail := Compensations(Undo(db, w), ws[..n], txn, lsn, lsn + 1, len);
      var rs := Compensations(db, ws, txn, prev, lsn, len);
      assert rs == [Compensation(db, w, txn, prev, len).(lsn := lsn)] + tail;
      forall k | 0 <= k < |ws| ensures CompAt(rs, ws, k, txn, prev, lsn) {
        if k > 0 {
          assert CompAt(tail, ws[..n], k - 1, txn, lsn, lsn + 1);
          assert rs[k] == tail[k - 1];
          assert ws[..n][|ws[..n]| - 1 - (k - 1)] == ws[|ws| - 1 - k];
        }
      }
    }
  }

  class TransactionManager {
    var nextTxnId: int
    var txnMap: map<int, Transaction>
    /** The tables the executors write and abort restores. */
    var db: Db
    const lockManager: LockManager

    ghost predicate Valid()
      reads lockManager
    {
      lockManager.Valid()
    }

    constructor(lockManager: LockManager, db: Db)
      requires lockManager.Valid()
      ensures Valid() && this.lockManager == lockManager && this.db == db
      ensures nextTxnId == 0 && txnMap == map[]
    {
      this.lockManager := lockManager;
      this.db := db;
      nextTxnId := 0;
      txnMap := map[];
    }

    /**
     * begin(nullptr): a new transaction numbered by the next id (which then
     * advances), registered in the transaction map; with logging on, its
     * BEGIN record is logged and becomes its prev_lsn.
     */
    method Begin(log: LogManager, logging: bool, hdrLen: nat) returns (txn: Transaction)
      requires log.Valid() && 0 < hdrLen <= log.capacity
      modifies this`nextTxnId, this`txnMap
      modifies log`logBuffer, log`offset, log`flushBuffer, log`flushOffset, log`disk, log`persistLsn, log`needFlush, log`globalLsn
      ensures log.Valid()
      ensures fresh(txn) && txn.id == old(nextTxnId) && nextTxnId == old(nextTxnId) + 1
      ensures txn.state == Default && txn.lockSet == [] && txn.writeSet == []
      ensures txnMap == old(txnMap)[txn.id := txn]
      ensures !logging ==> txn.prevLsn == INVALID_LSN && log.disk + log.logBuffer == old(log.disk + log.logBuffer)
      ensures logging ==>
        && txn.prevLsn == old(log.globalLsn) && log.globalLsn == old(log.globalLsn) + 1
        && log.disk + log.logBuffer == old(log.disk + log.logBuffer) + [TxnLog(BeginLog, txn.id, INVALID_LSN, hdrLen).(lsn := txn.prevLsn)]
    {
      txn := new Transaction(nextTxnId);
      nextTxnId := nextTxnId + 1;
      txnMap := txnMap[txn.id := txn];
      if logging {
        var lsn := log.AddLogToBuffer(TxnLog(BeginLog, txn.id, txn.prevLsn, hdrLen));
        txn.prevLsn := lsn;
      }
    }

    /**
     * ReleaseLocks: unlock each lock in the lock set, in order. Afterwards
     * every queue in the lock set has lost exactly the transaction's
     * requests and every other queue is as it was.
     */
    method ReleaseLocks(txn: Transaction)
      requires Valid()
      modifies lockManager, txn`state
      ensures Valid()
      ensures lockManager.lockTable == UnlockedAll(old(lockManager.lockTable), txn.lockSet, txn.id)
      ensures txn.state == if old(txn.state) == Growing && txn.lockSet != [] then Shrinking else old(txn.state)
    {
      var i := 0;
      while i < |txn.lockSet|
        invariant 0 <= i <= |txn.lockSet| && lockManager.Valid()
        invariant lockManager.lockTable == UnlockedAll(old(lockManager.lockTable), txn.lockSet[..i], txn.id)
        invariant txn.state == if old(txn.state) == Growing && i > 0 then Shrinking else old(txn.state)
      {
        var id := txn.lockSet[i];
        assert lockManager.Queue(id) == QueueIn(lockManager.lockTable, id);
        var _ := lockManager.Unlock(txn, id);
        assert txn.lockSet[..i + 1][..i] == txn.lockSet[..i];
        i := i + 1;
      }
      assert txn.lockSet[..i] == txn.lockSet;
    }

    /**
     * commit: an ABORTED transaction is refused (COMMIT_ABOOTED_TRANSACTION)
     * and nothing changes. Otherwise its locks are released, its lock,
     * write, index-latch and deleted-page sets are emptied, with logging on
     * its COMMIT record is logged and forced to the log file, and it becomes
     * COMMITTED and leaves the transaction map.
     */
    method Commit(txn: Transaction, log: LogManager, logging: bool, hdrLen: nat) returns (r: Result<bool, AbortReason>)
      requires Valid() && log.Valid() && 0 < hdrLen <= log.capacity
      modifies this`txnMap, lockManager
      modifies txn`state, txn`lockSet, txn`writeSet, txn`indexLatchPages, txn`indexDeletedPages, txn`prevLsn
      modifies log`logBuffer, log`offset, log`flushBuffer, log`flushOffset, log`disk, log`persistLsn, log`needFlush, log`globalLsn
      ensures Valid() && log.Valid()
      ensures old(txn.state) == Aborted ==>
        r == Err(CommitAbortedTransaction) && txn.state == Aborted && txnMap == old(txnMap)
        && lockManager.lockTable == old(lockManager.lockTable) && txn.lockSet == old(txn.lockSet)
        && txn.prevLsn == old(txn.prevLsn) && log.disk + log.logBuffer == old(log.disk + log.logBuffer)
      ensures old(txn.state) != Aborted ==>
        r == Ok(true) && txn.state == Committed && txnMap == old(txnMap) - {txn.id}
        && txn.lockSet == [] && txn.writeSet == [] && txn.indexLatchPages == [] && txn.indexDeletedPages == []
        && ReleasedFrom(old(lockManager.lockTable), old(txn.lockSet), txn.id, lockManager.lockTable)
      ensures old(txn.state) != Aborted && !logging ==>
        txn.prevLsn == old(txn.prevLsn) && log.disk + log.logBuffer == old(log.disk + log.logBuffer)
      ensures old(txn.state) != Aborted && logging ==>
        txn.prevLsn == old(log.globalLsn) && log.persistLsn >= txn.prevLsn
        && log.disk + log.logBuffer == old(log.disk + log.logBuffer) + [TxnLog(CommitLog, txn.id, old(txn.prevLsn), hdrLen).(lsn := txn.prevLsn)]
    {
      if txn.state == Aborted {
        return Err(CommitAbortedTransaction);
      }
      ReleaseAll(txn);
      txn.writeSet := [];
      if logging {
        LogEnd(txn, log, CommitLog, hdrLen);
      }
      txn.state := Committed;
      txnMap := txnMap - {txn.id};
      return Ok(true);
    }

    /**
     * ReleaseLocks followed by clearing the lock, index-latch and
     * deleted-page sets, as commit and abort both do.
     */
    method ReleaseAll(txn: Transaction)
      requires Valid()
      modifies lockManager, txn`state, txn`lockSet, txn`indexLatchPages, txn`indexDeletedPages
      ensures Valid() && txn.lockSet == [] && txn.indexLatchPages == [] && txn.indexDeletedPages == []
      ensures ReleasedFrom(old(lockManager.lockTable), old(txn.lockSet), txn.id, lockManager.lockTable)
    {
      ghost var table := lockManager.lockTable;
      ReleaseLocks(txn);
      UnlockedAllQueues(table, txn.lockSet, txn.id);
      forall k | k in txn.lockSet ensures NoRequestOf(lockManager.lockTable[k].requests, txn.id) {
        RemovedHasNone(QueueIn(table, k).requests, txn.id);
      }
      txn.lockSet := [];
      txn.indexLatchPages := [];
      txn.indexDeletedPages := [];
    }

    /** The COMMIT or ABORT record logged, made the transaction's prev_lsn and forced to the log file. */
    method LogEnd(txn: Transaction, log: LogManager, kind: LogType, hdrLen: nat)
      requires log.Valid() && 0 < hdrLen <= log.capacity
      modifies txn`prevLsn
      modifies log`logBuffer, log`offset, log`flushBuffer, log`flushOffset, log`disk, log`persistLsn, log`needFlush, log`globalLsn
      ensures log.Valid() && txn.prevLsn == old(log.globalLsn) && log.persistLsn >= txn.prevLsn
      ensures log.disk + log.logBuffer == old(log.disk + log.logBuffer) + [TxnLog(kind, txn.id, old(txn.prevLsn), hdrLen).(lsn := txn.prevLsn)]
    {
      var lsn := log.AddLogToBuffer(TxnLog(kind, txn.id, txn.prevLsn, hdrLen));
      txn.prevLsn := lsn;
      log.ForceFlush(lsn);
    }

    /**
     * One round of abort's loop: with logging on, the compensating record
     * of the last write is logged and becomes prev_lsn; then the write is
     * undone and popped.
     */
    method UndoLast(txn: Transaction, log: LogManager, logging: bool, dataLen: nat)
      requires txn.writeSet != [] && log.Valid() && 0 < dataLen <= log.capacity
      modifies this`db, txn`writeSet, txn`prevLsn
      modifies log`logBuffer, log`offset, log`flushBuffer, log`flushOffset, log`disk, log`persistLsn, log`needFlush, log`globalLsn
      ensures log.Valid()
      ensures var w := old(txn.writeSet[|txn.writeSet| - 1]);
        && db == Undo(old(db), w) && txn.writeSet == old(txn.writeSet[..|txn.writeSet| - 1])
        && (!logging ==> txn.prevLsn == old(txn.prevLsn) && log.globalLsn == old(log.globalLsn)
                         && log.disk + log.logBuffer == old(log.disk + log.logBuffer))
        && (logging ==> txn.prevLsn == old(log.globalLsn) && log.globalLsn == old(log.globalLsn) + 1
                        && log.disk + log.logBuffer
                           == old(log.disk + log.logBuffer) + [Compensation(old(db), w, txn.id, old(txn.prevLsn), dataLen).(lsn := txn.prevLsn)])
    {
      var n := |txn.writeSet| - 1;
      var w := txn.writeSet[n];
      if logging {
        var lsn := log.AddLogToBuffer(Compensation(db, w, txn.id, txn.prevLsn, dataLen));
        txn.prevLsn := lsn;
      }
      db := Undo(db, w);
      txn.writeSet := txn.writeSet[..n];
    }

    /**
     * abort (of a transaction that has not committed): the write set is
     * undone from its last record to its first, each record popped once
     * undone and, with logging on, its compensating record logged first;
     * then the locks are released, the sets emptied, with logging on the
     * ABORT record logged and forced to the log file, the state set to
     * ABORTED and the transaction removed from the map.
     */
    method Abort(txn: Transaction, log: LogManager, logging: bool, hdrLen: nat, dataLen: nat)
      requires Valid() && txn.state != Committed
      requires log.Valid() && 0 < hdrLen <= log.capacity && 0 < dataLen <= log.capacity
      modifies this`db, this`txnMap, lockManager
      modifies txn`state, txn`lockSet, txn`writeSet, txn`indexLatchPages, txn`indexDeletedPages, txn`prevLsn
      modifies log`logBuffer, log`offset, log`flushBuffer, log`flushOffset, log`disk, log`persistLsn, log`needFlush, log`globalLsn
      ensures Valid() && log.Valid()
      ensures db == UndoAll(old(db), old(txn.writeSet))
      ensures txn.state == Aborted && txnMap == old(txnMap) - {txn.id}
      ensures txn.lockSet == [] && txn.writeSet == [] && txn.indexLatchPages == [] && txn.indexDeletedPages == []
      ensures ReleasedFrom(old(lockManager.lockTable), old(txn.lockSet), txn.id, lockManager.lockTable)
      ensures !logging ==> txn.prevLsn == old(txn.prevLsn) && log.disk + log.logBuffer == old(log.disk + log.logBuffer)
      ensures logging ==>
        && txn.prevLsn == old(log.globalLsn) + |old(txn.writeSet)| && log.persistLsn >= txn.prevLsn
        && log.disk + log.logBuffer
           == old(log.disk + log.logBuffer)
              + AbortRecords(old(db), old(txn.writeSet), txn.id, old(txn.prevLsn), old(log.globalLsn), dataLen, hdrLen)
    {
      ghost var comps := Compensations(db, txn.writeSet, txn.id, txn.prevLsn, log.globalLsn, dataLen);
      ghost var logged0 := log.disk + log.logBuffer;
      UndoWrites(txn, log, logging, dataLen);
      ghost var logged1 := log.disk + log.logBuffer;
      ghost var prev1 := txn.prevLsn;
      FinishAbort(txn, log, logging, hdrLen);
      if logging {
        assert log.disk + log.logBuffer == logged0 + (comps + [TxnLog(AbortLog, txn.id, prev1, hdrLen).(lsn := txn.prevLsn)]);
      }
    }

    /**
     * What abort does once the writes are undone: the locks released, the
     * sets emptied, the ABORT record logged and forced with logging on, the
     * state ABORTED and the transaction out of the map.
     */
    method FinishAbort(txn: Transaction, log: LogManager, logging: bool, hdrLen: nat)
      requires Valid() && log.Valid() && 0 < hdrLen <= log.capacity
      modifies this`txnMap, lockManager
      modifies txn`state, txn`lockSet, txn`indexLatchPages, txn`indexDeletedPages, txn`prevLsn
      modifies log`logBuffer, log`offset, log`flushBuffer, log`flushOffset, log`disk, log`persistLsn, log`needFlush, log`globalLsn
      ensures Valid() && log.Valid()
      ensures txn.state == Aborted && txnMap == old(txnMap) - {txn.id}
      ensures txn.lockSet == [] && txn.indexLatchPages == [] && txn.indexDeletedPages == []
      ensures ReleasedFrom(old(lockManager.lockTable), old(txn.lockSet), txn.id, lockManager.lockTable)
      ensures !logging ==> txn.prevLsn == old(txn.prevLsn) && log.disk + log.logBuffer == old(log.disk + log.logBuffer)
      ensures logging ==>
        && txn.prevLsn == old(log.globalLsn) && log.persistLsn >= txn.prevLsn
        && log.disk + log.logBuffer == old(log.disk + log.logBuffer) + [TxnLog(AbortLog, txn.id, old(txn.prevLsn), hdrLen).(lsn := txn.prevLsn)]
    {
      ReleaseAll(txn);
      if logging {
        LogEnd(txn, log, AbortLog, hdrLen);
      }
      txn.state := Aborted;
      txnMap := txnMap - {txn.id};
    }

    /**
     * The loop of abort: the write set undone from its last record to its
     * first, with the compensating records logged in that order when
     * logging is on.
     */
    method UndoWrites(txn: Transaction, log: LogManager, logging: bool, dataLen: nat)
      requires log.Valid() && 0 < dataLen <= log.capacity
      modifies this`db, txn`writeSet, txn`prevLsn
      modifies log`logBuffer, log`offset, log`flushBuffer, log`flushOffset, log`disk, log`persistLsn, log`needFlush, log`globalLsn
      ensures log.Valid() && txn.writeSet == []
      ensures db == UndoAll(old(db), old(txn.writeSet))
      ensures !logging ==> txn.prevLsn == old(txn.prevLsn) && log.disk + log.logBuffer == old(log.disk + log.logBuffer)
      ensures logging ==>
        && log.globalLsn == old(log.globalLsn) + |old(txn.writeSet)|
        && txn.prevLsn == (if old(txn.writeSet) == [] then old(txn.prevLsn) else log.globalLsn - 1)
        && log.disk + log.logBuffer
           == old(log.disk + log.logBuffer) + Compensations(old(db), old(txn.writeSet), txn.id, old(txn.prevLsn), old(log.globalLsn), dataLen)
    {
      ghost var logged0 := log.disk + log.logBuffer;
      ghost var comps := Compensations(db, txn.writeSet, txn.id, txn.prevLsn, log.globalLsn, dataLen);
      ghost var n0 := |txn.writeSet|;
      while txn.writeSet != []
        invariant log.Valid() && |txn.writeSet| <= n0
        invariant UndoAll(db, txn.writeSet) == UndoAll(old(db), old(txn.writeSet))
        invariant !logging ==> txn.prevLsn == old(txn.prevLsn) && log.disk + log.logBuffer == logged0
        invariant logging ==>
          && log.globalLsn == old(log.globalLsn) + (n0 - |txn.writeSet|)
          && txn.prevLsn == (if |txn.writeSet| == n0 then old(txn.prevLsn) else log.globalLsn - 1)
          && logged0 + comps == log.disk + log.logBuffer + Compensations(db, txn.writeSet, txn.id, txn.prevLsn, log.globalLsn, dataLen)
        decreases |txn.writeSet|
      {
        ghost var logged := log.disk + log.logBuffer;
        ghost var rest := Compensations(db, txn.writeSet, txn.id, txn.prevLsn, log.globalLsn, dataLen);
        UndoLast(txn, log, logging, dataLen);
        if logging {
          assert logged + rest == (log.disk + log.logBuffer) + Compensations(db, txn.writeSet, txn.id, txn.prevLsn, log.globalLsn, dataLen);
        }
      }
      assert Compensations(db, [], txn.id, txn.prevLsn, log.globalLsn, dataLen) == [];
    }
  }

  /**
   * A transaction that ran a sequence of writes, each passing its
   * executor's checks, and then aborted leaves the tables as they were
   * before its first write.
   */
  lemma AbortRestoresTables(db0: Db, ops: seq<Op>)
    requires DbConsistent(db0) && Run(db0, ops).Some?
    ensures UndoAll(Run(db0, ops).value.0, Run(db0, ops).value.1) == db0
  {
    UndoAllRestores(db0, ops);
  }
}
