// The steps the insert, update and delete executors share: building a
// record's key for an index (each index column's bytes copied after the
// previous ones, col_tot_len in all), taking a record's key out of every
// index of its table or putting it into every one, and writing the log
// record of a data write.
module IndexWrites {
  import opened Wrappers
  import opened IxNode
  import opened Txn
  import opened Tables
  import opened Logging

  /** The key of rec for an index over cols: the memcpy loop over the index columns. */
  method BuildKey(rec: seq<byte>, cols: seq<ColSpan>) returns (key: seq<byte>)
    ensures key == Key(rec, cols) && |key| == KeyLen(cols)
  {
    key := [];
    var i := 0;
    while i < |cols|
      invariant i <= |cols| && key == Key(rec, cols[..i])
    {
      assert cols[..i + 1][..i] == cols[..i];
      key := key + Field(rec, cols[i]);
      i := i + 1;
    }
    assert cols[..|cols|] == cols;
  }

  /** rec's key deleted from every index, first to last. */
  method DeleteEntries(ixs: seq<Index>, rec: seq<byte>) returns (ixs': seq<Index>)
    ensures |ixs'| == |ixs| && forall k :: 0 <= k < |ixs| ==> ixs'[k] == DropKey(ixs[k], rec)
    ensures forall k :: 0 <= k < |ixs| ==> ixs'[k].cols == ixs[k].cols
    ensures forall k :: 0 <= k < |ixs| ==> Key(rec, ixs[k].cols) !in ixs'[k].entries
  {
    ixs' := ixs;
    var i := 0;
    while i < |ixs|
      invariant i <= |ixs| && |ixs'| == |ixs|
      invariant forall k :: 0 <= k < i ==> ixs'[k] == DropKey(ixs[k], rec)
      invariant forall k :: i <= k < |ixs| ==> ixs'[k] == ixs[k]
    {
      var key := BuildKey(rec, ixs[i].cols);
      ixs' := ixs'[i := ixs[i].(entries := ixs[i].entries - {key})];
      i := i + 1;
    }
  }

  /** rec's key, pointing at rid, inserted into every index, first to last. */
  method InsertEntries(ixs: seq<Index>, rec: seq<byte>, rid: Rid) returns (ixs': seq<Index>)
    ensures |ixs'| == |ixs| && forall k :: 0 <= k < |ixs| ==> ixs'[k] == PutKey(ixs[k], rec, rid)
    ensures forall k :: 0 <= k < |ixs| ==> ixs'[k].cols == ixs[k].cols
    ensures forall k :: 0 <= k < |ixs| ==> Key(rec, ixs[k].cols) in ixs'[k].entries
  {
    ixs' := ixs;
    var i := 0;
    while i < |ixs|
      invariant i <= |ixs| && |ixs'| == |ixs|
      invariant forall k :: 0 <= k < i ==> ixs'[k] == PutKey(ixs[k], rec, rid)
      invariant forall k :: i <= k < |ixs| ==> ixs'[k] == ixs[k]
    {
      var key := BuildKey(rec, ixs[i].cols);
      ixs' := ixs'[i := ixs[i].(entries := ixs[i].entries[key := rid])];
      i := i + 1;
    }
  }

  /** Deleting a row, as the delete executor does it: the keys from every index, then the record. */
  lemma DeletedRow(t: Table, rid: Rid, ixs: seq<Index>)
    requires rid in t.records && |ixs| == |t.indexes|
    requires forall k :: 0 <= k < |ixs| ==> ixs[k] == DropKey(t.indexes[k], t.records[rid])
    ensures Table(t.records - {rid}, ixs) == DeleteRow(t, rid)
  {
  }

  /** Inserting a row, as the insert executor does it: the record, then its key into every index. */
  lemma InsertedRow(t: Table, rid: Rid, rec: seq<byte>, ixs: seq<Index>)
    requires |ixs| == |t.indexes|
    requires forall k :: 0 <= k < |ixs| ==> ixs[k] == PutKey(t.indexes[k], rec, rid)
    ensures Table(t.records[rid := rec], ixs) == InsertRow(t, rid, rec)
  {
  }

  /**
   * The log record of a data write: its type, the writing transaction and
   * that transaction's previous lsn, the table and rid, and the images
   * (the lsn is assigned by add_log_to_buffer). Its serialized length is
   * computed by the log record classes, which are not part of this model,
   * and is given as len.
   */
  function DataLog(kind: LogType, txn: int, prev: int, len: nat, table: string, rid: Rid,
                   value: seq<byte>, oldValue: seq<byte>): (r: LogRecord)
    ensures r.kind == kind && r.txnId == txn && r.prevLsn == prev && r.table == table && r.rid == rid
  {
    LogRecord(kind, 0, txn, prev, len, table, rid, value, oldValue)
  }

  /**
   * With logging on: the write's log record, chained to the transaction's
   * previous one, goes to the log buffer, and its lsn becomes the
   * transaction's prev_lsn.
   */
  method LogWrite(log: LogManager, txn: Transaction, kind: LogType, len: nat, table: string, rid: Rid,
                  value: seq<byte>, oldValue: seq<byte>) returns (lsn: int)
    requires log.Valid() && 0 < len <= log.capacity
    modifies log`logBuffer, log`offset, log`flushBuffer, log`flushOffset, log`disk, log`persistLsn, log`needFlush, log`globalLsn
    modifies txn`prevLsn
    ensures log.Valid() && lsn == old(log.globalLsn) && txn.prevLsn == lsn && log.globalLsn == lsn + 1
    ensures log.disk + log.logBuffer
         == old(log.disk + log.logBuffer) + [DataLog(kind, txn.id, old(txn.prevLsn), len, table, rid, value, oldValue).(lsn := lsn)]
  {
    var rec := DataLog(kind, txn.id, txn.prevLsn, len, table, rid, value, oldValue);
    lsn := log.AddLogToBuffer(rec);
    txn.prevLsn := lsn;
  }
}
