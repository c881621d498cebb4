// The delete executor (executor_delete.h): an IX lock on the table, then
// for each rid the scan found, in order, its key taken out of every index,
// a DELETE_TUPLE write record with the record as it was, the log record
// when logging is on, and the record deleted. The tables are the values of
// the Tables model; the transaction, the lock manager and the log manager
// are the objects of their own models.
module DeleteExec {
  import opened Wrappers
  import opened IxNode
  import opened Txn
  import opened Locking
  import opened Logging
  import opened Tables
  import opened IndexWrites

  /** The writes a delete of rids makes: one per rid, in order. */
  function DeleteOps(name: string, rids: seq<Rid>): (ops: seq<Op>)
    ensures |ops| == |rids| && forall k :: 0 <= k < |rids| ==> ops[k] == Delete(name, rids[k])
  {
    seq(|rids|, k requires 0 <= k < |rids| => Delete(name, rids[k]))
  }

  /**
   * One rid of the loop in Next: get_record, delete_entry of its key in
   * every index, the write record, the log record, delete_record. The
   * table afterwards is the delete write applied to it, and the write
   * record appended is that write's.
   */
  method DeleteOne(log: LogManager, logging: bool, logLen: nat, txn: Transaction, db: Db, name: string, rid: Rid)
    returns (db': Db)
    requires name in db && rid in db[name].records
    requires log.Valid() && 0 < logLen <= log.capacity
    modifies txn`writeSet, txn`prevLsn
    modifies log`logBuffer, log`offset, log`flushBuffer, log`flushOffset, log`disk, log`persistLsn, log`needFlush, log`globalLsn
    ensures log.Valid()
    ensures db' == Do(db, Delete(name, rid))
    ensures txn.writeSet == old(txn.writeSet) + [WriteOf(db, Delete(name, rid))]
    ensures !logging ==> txn.prevLsn == old(txn.prevLsn) && log.disk + log.logBuffer == old(log.disk + log.logBuffer)
    ensures logging ==> txn.prevLsn == old(log.globalLsn)
                        && log.disk + log.logBuffer == old(log.disk + log.logBuffer)
                           + [DataLog(DeleteLog, txn.id, old(txn.prevLsn), logLen, name, rid, db[name].records[rid], []).(lsn := txn.prevLsn)]
  {
    var t := db[name];
    var rec := t.records[rid];
    var ixs := DeleteEntries(t.indexes, rec);
    txn.writeSet := txn.writeSet + [WriteRecord(DeleteTuple, name, rid, rec)];
    if logging {
      var _ := LogWrite(log, txn, DeleteLog, logLen, name, rid, rec, []);
    }
    DeletedRow(t, rid, ixs);
    db' := db[name := Table(t.records - {rid}, ixs)];
  }

  /**
   * Next: the IX lock on the table is taken before any row is touched; if
   * the lock manager refuses it, the transaction's abort reason comes back
   * and nothing is written. Otherwise the rids are deleted in order, and
   * the tables and the write records appended are exactly those of running
   * the deletes one after another (so abort undoes them, see
   * Tables.UndoAllRestores).
   */
  method Next(lm: LockManager, log: LogManager, logging: bool, logLen: nat, txn: Transaction,
              fd: int, db: Db, name: string, rids: seq<Rid>)
    returns (r: Result<Db, AbortReason>)
    requires name in db && Distinct(rids) && forall k :: 0 <= k < |rids| ==> rids[k] in db[name].records
    requires lm.Valid() && log.Valid() && 0 < logLen <= log.capacity
    modifies lm, txn`state, txn`lockSet, txn`writeSet, txn`prevLsn
    modifies log`logBuffer, log`offset, log`flushBuffer, log`flushOffset, log`disk, log`persistLsn, log`needFlush, log`globalLsn
    ensures lm.Valid() && log.Valid()
    ensures r.Err? ==> txn.writeSet == old(txn.writeSet) && txn.prevLsn == old(txn.prevLsn)
    ensures r.Ok? ==> TableId(fd) in lm.lockTable && Holds(lm.lockTable[TableId(fd)].requests, txn.id, IntentionExclusive)
    ensures r.Ok? ==> |old(txn.writeSet)| <= |txn.writeSet| && txn.writeSet[..|old(txn.writeSet)|] == old(txn.writeSet)
                      && Run(db, DeleteOps(name, rids)) == Some((r.value, txn.writeSet[|old(txn.writeSet)|..]))
  {
    var locked := lm.Lock(txn, TableId(fd), IntentionExclusive);
    if locked.Err? {
      return Err(locked.error);
    }
    var d := DeleteAll(log, logging, logLen, txn, db, name, rids);
    return Ok(d);
  }

  /** The loop of Next over the rids, once the table lock is held. */
  method DeleteAll(log: LogManager, logging: bool, logLen: nat, txn: Transaction, db: Db, name: string, rids: seq<Rid>)
    returns (d: Db)
    requires name in db && Distinct(rids) && forall k :: 0 <= k < |rids| ==> rids[k] in db[name].records
    requires log.Valid() && 0 < logLen <= log.capacity
    modifies txn`writeSet, txn`prevLsn
    modifies log`logBuffer, log`offset, log`flushBuffer, log`flushOffset, log`disk, log`persistLsn, log`needFlush, log`globalLsn
    ensures log.Valid()
    ensures |old(txn.writeSet)| <= |txn.writeSet| && txn.writeSet[..|old(txn.writeSet)|] == old(txn.writeSet)
    ensures Run(db, DeleteOps(name, rids)) == Some((d, txn.writeSet[|old(txn.writeSet)|..]))
  {
    ghost var ws0 := txn.writeSet;
    ghost var ops := DeleteOps(name, rids);
    d := db;
    var i := 0;
    assert ops[..0] == [] && txn.writeSet[|ws0|..] == [];
    while i < |rids|
      invariant i <= |rids| && name in d && log.Valid()
      invariant forall k :: i <= k < |rids| ==> rids[k] in d[name].records
      invariant |ws0| <= |txn.writeSet| && txn.writeSet[..|ws0|] == ws0
      invariant Run(db, ops[..i]) == Some((d, txn.writeSet[|ws0|..]))
    {
      ghost var w := txn.writeSet[|ws0|..];
      var d' := DeleteOne(log, logging, logLen, txn, d, name, rids[i]);
      assert ops[..i + 1][..i] == ops[..i] && ops[i] == Delete(name, rids[i]);
      assert txn.writeSet[|ws0|..] == w + [WriteOf(d, Delete(name, rids[i]))];
      d := d';
      i := i + 1;
    }
    assert ops[..|rids|] == ops;
  }

  /**
   * Deleting distinct rows of a table whose indexes agree with its
   * records always runs through: every check passes, the indexes still
   * agree afterwards, exactly the given rows are gone, and undoing the
   * write records from the last one back gives the tables as they were.
   */
  lemma {:induction false} DeleteRuns(db: Db, name: string, rids: seq<Rid>)
    requires DbConsistent(db) && name in db && Distinct(rids)
    requires forall k :: 0 <= k < |rids| ==> rids[k] in db[name].records
    ensures Run(db, DeleteOps(name, rids)).Some?
    ensures var p := Run(db, DeleteOps(name, rids)).value;
      && DbConsistent(p.0) && name in p.0
      && (forall r :: r in p.0[name].records <==> r in db[name].records && r !in rids)
      && UndoAll(p.0, p.1) == db
    decreases |rids|
  {
    var ops := DeleteOps(name, rids);
    if rids == [] {
      assert ops == [];
    } else {
      var n := |rids| - 1;
      assert ops[..n] == DeleteOps(name, rids[..n]);
      DeleteRuns(db, name, rids[..n]);
      var p := Run(db, ops[..n]).value;
      assert rids[n] !in rids[..n];
      assert Applicable(p.0, ops[n]);
      RunKeeps(db, ops);
      UndoAllRestores(db, ops);
      forall r ensures r in Run(db, ops).value.0[name].records <==> r in db[name].records && r !in rids {
        assert r in rids <==> r in rids[..n] || r == rids[n];
      }
    }
  }
}
