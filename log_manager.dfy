// The log manager (src/recovery/log_manager.cpp): LSN assignment, the log
// buffer and the flush buffer, and the flush that moves buffered records to
// the log file. Records are kept as values: their byte serialization (and
// log_defs.h, which sizes the buffer) is not part of this model, so the
// buffer capacity is a parameter and a buffer's offset is the total length
// of the records in it. The flush thread runs a round only when asked (a
// full buffer or a forced flush); its timer is left out.
module Logging {
  import opened Wrappers
  import opened IxNode
  import opened Txn

  datatype LogType = BeginLog | CommitLog | AbortLog | InsertLog | DeleteLog | UpdateLog

  /**
   * A log record: its type, lsn, transaction, the lsn of the transaction's
   * previous record and its total length; data records also name a table
   * and a rid, and carry the inserted/deleted record (value) or, for an
   * update, the new (value) and old (oldValue) images.
   */
  datatype LogRecord = LogRecord(
    kind: LogType, lsn: int, txnId: int, prevLsn: int, totLen: nat,
    table: string, rid: Rid, value: seq<byte>, oldValue: seq<byte>)

  /** The bytes a run of records takes: the sum of their lengths. */
  function TotLen(rs: seq<LogRecord>): nat
    decreases |rs|
  {
    if rs == [] then 0 else TotLen(rs[..|rs| - 1]) + rs[|rs| - 1].totLen
  }

  lemma TotLenAppend(rs: seq<LogRecord>, r: LogRecord)
    ensures TotLen(rs + [r]) == TotLen(rs) + r.totLen
  {
    assert (rs + [r])[..|rs|] == rs;
  }

  /** Records of positive length take no room only when there are none. */
  lemma {:induction false} TotLenZero(rs: seq<LogRecord>)
    requires forall i :: 0 <= i < |rs| ==> rs[i].totLen > 0
    ensures TotLen(rs) == 0 <==> rs == []
    decreases |rs|
  {
    if rs != [] {
      TotLenZero(rs[..|rs| - 1]);
    }
  }

  /** LSNs strictly increase along the log. */
  predicate LsnsIncrease(rs: seq<LogRecord>)
  {
    forall i, j :: 0 <= i < j < |rs| ==> rs[i].lsn < rs[j].lsn
  }

  /** A record whose lsn exceeds every lsn of the log keeps LSNs increasing when appended. */
  lemma AppendKeepsIncrease(rs: seq<LogRecord>, r: LogRecord)
    requires LsnsIncrease(rs) && forall i :: 0 <= i < |rs| ==> rs[i].lsn < r.lsn
    ensures LsnsIncrease(rs + [r])
  {
  }

  class LogManager {
    /** LOG_BUFFER_SIZE. */
    const capacity: nat
    var globalLsn: int
    var persistLsn: int
    /** log_buffer_: the records appended since the last flush; offset is its offset_. */
    var logBuffer: seq<LogRecord>
    var offset: nat
    /** flush_buffer_ and its offset_. */
    var flushBuffer: seq<LogRecord>
    var flushOffset: nat
    /** The log file, as the records written to it. */
    var disk: seq<LogRecord>
    var needFlush: bool

    /**
     * Offsets match the buffers, the log buffer fits, the flush buffer is
     * empty between calls, LSNs increase along file and buffer and are all
     * below global_lsn_, the file holds exactly the records up to
     * persist_lsn_, and an empty buffer means everything is persisted.
     */
    ghost predicate Valid()
      reads this
    {
      && offset == TotLen(logBuffer) && offset <= capacity
      && flushBuffer == [] && flushOffset == 0
      && (forall i :: 0 <= i < |logBuffer| ==> logBuffer[i].totLen > 0)
      && LsnsIncrease(disk + logBuffer)
      && (forall i :: 0 <= i < |disk| ==> disk[i].lsn <= persistLsn)
      && (forall i :: 0 <= i < |logBuffer| ==> persistLsn < logBuffer[i].lsn < globalLsn)
      && persistLsn < globalLsn
      && (logBuffer == [] ==> persistLsn == globalLsn - 1)
    }

    /** A log manager over an empty log whose next lsn is `next`. */
    constructor(capacity: nat, next: int)
      ensures Valid() && this.capacity == capacity && globalLsn == next && persistLsn == next - 1
      ensures disk == [] && logBuffer == [] && !needFlush
    {
      this.capacity := capacity;
      globalLsn := next;
      persistLsn := next - 1;
      logBuffer, offset := [], 0;
      flushBuffer, flushOffset := [], 0;
      disk := [];
      needFlush := false;
    }

    /**
     * flush_log_to_disk: nothing when the flush buffer is empty; otherwise
     * its records are appended to the log file and its offset reset to 0.
     */
    method FlushLogToDisk()
      requires flushOffset == TotLen(flushBuffer)
      requires forall i :: 0 <= i < |flushBuffer| ==> flushBuffer[i].totLen > 0
      modifies this`disk, this`flushBuffer, this`flushOffset
      ensures disk == old(disk) + old(flushBuffer) && flushBuffer == [] && flushOffset == 0
      ensures old(flushOffset) == 0 ==> disk == old(disk)
    {
      TotLenZero(flushBuffer);
      if flushOffset == 0 {
        return;
      }
      disk := disk + flushBuffer;
      flushBuffer, flushOffset := [], 0;
    }

    /**
     * One round of the flush thread: with records buffered, the buffers are
     * swapped, the flush buffer is written out and persist_lsn_ becomes
     * global_lsn_ - 1; with none, nothing happens.
     */
    method FlushRound()
      requires Valid()
      modifies this`logBuffer, this`offset, this`flushBuffer, this`flushOffset, this`disk, this`persistLsn, this`needFlush
      ensures Valid() && logBuffer == [] && disk + logBuffer == old(disk + logBuffer)
      ensures disk == old(disk) + old(logBuffer)
      ensures persistLsn == globalLsn - 1
      ensures old(logBuffer) == [] ==> disk == old(disk) && persistLsn == old(persistLsn) && needFlush == old(needFlush)
    {
      TotLenZero(logBuffer);
      if offset > 0 {
        logBuffer, flushBuffer := flushBuffer, logBuffer;
        offset, flushOffset := flushOffset, offset;
        var lsn := globalLsn - 1;
        FlushLogToDisk();
        persistLsn := lsn;
        needFlush := false;
        assert disk == old(disk + logBuffer);
      }
    }

    /**
     * add_log_to_buffer: when the record does not fit (offset_ + its length
     * exceeds the capacity) the buffered records are flushed first; then
     * the record gets lsn global_lsn_ (which advances by one) and is placed
     * at offset_, which advances by its length. Returns the record's lsn.
     */
    method AddLogToBuffer(rec: LogRecord) returns (lsn: int)
      requires Valid() && 0 < rec.totLen <= capacity
      modifies this`logBuffer, this`offset, this`flushBuffer, this`flushOffset, this`disk, this`persistLsn, this`needFlush, this`globalLsn
      ensures Valid()
      ensures lsn == old(globalLsn) && globalLsn == old(globalLsn) + 1
      ensures disk + logBuffer == old(disk + logBuffer) + [rec.(lsn := lsn)]
      ensures old(offset) + rec.totLen <= capacity ==>
        disk == old(disk) && logBuffer == old(logBuffer) + [rec.(lsn := lsn)] && persistLsn == old(persistLsn)
      ensures old(offset) + rec.totLen > capacity ==>
        disk == old(disk) + old(logBuffer) && logBuffer == [rec.(lsn := lsn)] && persistLsn == old(globalLsn) - 1
    {
      if offset + rec.totLen > capacity {
        needFlush := true;
        FlushRound();
      }
      lsn := Append(rec);
    }

    /** The record, numbered global_lsn_, placed at offset_ of a buffer with room for it. */
    method Append(rec: LogRecord) returns (lsn: int)
      requires Valid() && 0 < rec.totLen && offset + rec.totLen <= capacity
      modifies this`logBuffer, this`offset, this`globalLsn
      ensures Valid()
      ensures lsn == old(globalLsn) && globalLsn == old(globalLsn) + 1
      ensures logBuffer == old(logBuffer) + [rec.(lsn := lsn)]
    {
      lsn := globalLsn;
      var r := rec.(lsn := lsn);
      assert forall i :: 0 <= i < |disk + logBuffer| ==> (disk + logBuffer)[i].lsn < lsn;
      AppendKeepsIncrease(disk + logBuffer, r);
      assert (disk + logBuffer) + [r] == disk + (logBuffer + [r]);
      TotLenAppend(logBuffer, r);
      globalLsn := globalLsn + 1;
      logBuffer := logBuffer + [r];
      offset := offset + rec.totLen;
    }

    /**
     * ForceFlush(lsn): returns at once when persist_lsn_ >= lsn; otherwise
     * it has the flush thread run and waits until persist_lsn_ reaches lsn.
     * Afterwards every record up to lsn is in the log file. (The wait only
     * ends for an lsn already handed out.)
     */
    method ForceFlush(lsn: int)
      requires Valid() && lsn < globalLsn
      modifies this`logBuffer, this`offset, this`flushBuffer, this`flushOffset, this`disk, this`persistLsn, this`needFlush
      ensures Valid() && persistLsn >= lsn && disk + logBuffer == old(disk + logBuffer)
      ensures forall i :: 0 <= i < |logBuffer| ==> logBuffer[i].lsn > lsn
      ensures old(persistLsn) >= lsn ==>
        disk == old(disk) && logBuffer == old(logBuffer) && persistLsn == old(persistLsn) && needFlush == old(needFlush)
    {
      if persistLsn >= lsn {
        return;
      }
      needFlush := true;
      FlushRound();
    }

    /** set_persist_lsn and set_global_lsn, as recovery uses them once the log is read. */
    method SetLsns(maxLsn: int)
      requires Valid() && logBuffer == []
      requires forall i :: 0 <= i < |disk| ==> disk[i].lsn <= maxLsn
      modifies this`persistLsn, this`globalLsn
      ensures Valid() && persistLsn == maxLsn && globalLsn == maxLsn + 1
    {
      persistLsn := maxLsn;
      globalLsn := maxLsn + 1;
    }
  }
}
