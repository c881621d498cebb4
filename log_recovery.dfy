// Crash recovery (src/recovery/log_recovery.cpp): redo walks the log file
// in buffer-sized chunks, record by record, remembering each lsn's place in
// the file and each transaction's last lsn, and reapplies data records a
// page has not yet seen; undo rolls the unfinished transactions back along
// their prev_lsn chains, latest record first, logging a compensating record
// for each. The record files are seen as maps from rid to bytes and each
// page's page_lsn as a map entry (a page with no entry has page_lsn -1).
module Recovery {
  import opened Wrappers
  import opened IxNode
  import opened Txn
  import opened Logging

  datatype PageKey = PageKey(table: string, pageNo: int)

  /** The record files by table name, and the page_lsn of each page. */
  datatype Store = Store(files: map<string, map<Rid, seq<byte>>>, pageLsn: map<PageKey, int>)

  function PageLsn(st: Store, table: string, pageNo: int): int
  {
    if PageKey(table, pageNo) in st.pageLsn then st.pageLsn[PageKey(table, pageNo)] else INVALID_LSN
  }

  predicate IsData(r: LogRecord)
  {
    r.kind == InsertLog || r.kind == DeleteLog || r.kind == UpdateLog
  }

  /** A data record of an open table whose page has not seen it: the page_lsn guard. */
  predicate NeedsRedo(st: Store, r: LogRecord)
  {
    IsData(r) && r.table in st.files && PageLsn(st, r.table, r.rid.pageNo) < r.lsn
  }

  /**
   * RedoLog's effect on the data: a data record whose page has not seen it
   * is reapplied (insert_record, delete_record or update_record to the new
   * image) and the page's lsn set to the record's; any other record changes
   * nothing.
   */
  function RedoData(st: Store, r: LogRecord): (st2: Store)
    ensures !NeedsRedo(st, r) ==> st2 == st
    ensures NeedsRedo(st, r) ==> PageLsn(st2, r.table, r.rid.pageNo) == r.lsn
  {
    if !NeedsRedo(st, r) then st
    else
      var f := st.files[r.table];
      var f2 := if r.kind == DeleteLog then f - {r.rid} else f[r.rid := r.value];
      Store(st.files[r.table := f2], st.pageLsn[PageKey(r.table, r.rid.pageNo) := r.lsn])
  }

  /** Redo never lowers a page's lsn, and leaves each page at least at the record's lsn. */
  lemma RedoDataRaises(st: Store, r: LogRecord, t: string, p: int)
    ensures PageLsn(RedoData(st, r), t, p) >= PageLsn(st, t, p)
    ensures IsData(r) && r.table in st.files ==> PageLsn(RedoData(st, r), r.table, r.rid.pageNo) >= r.lsn
    ensures RedoData(st, r).files.Keys == st.files.Keys
  {
  }

  /** Redoing one record twice is redoing it once: the page_lsn guard makes redo idempotent. */
  lemma RedoDataIdempotent(st: Store, r: LogRecord)
    ensures RedoData(RedoData(st, r), r) == RedoData(st, r)
  {
    RedoDataRaises(st, r, r.table, r.rid.pageNo);
  }

  /** Redo of a run of records, first to last. */
  function RedoAll(st: Store, rs: seq<LogRecord>): Store
    decreases |rs|
  {
    if rs == [] then st else RedoData(RedoAll(st, rs[..|rs| - 1]), rs[|rs| - 1])
  }

  /** Every data record of an open table is at or below its page's lsn. */
  ghost predicate Covered(st: Store, rs: seq<LogRecord>)
  {
    forall i :: 0 <= i < |rs| && IsData(rs[i]) && rs[i].table in st.files ==>
      PageLsn(st, rs[i].table, rs[i].rid.pageNo) >= rs[i].lsn
  }

  lemma {:induction false} RedoAllRaises(st: Store, rs: seq<LogRecord>, t: string, p: int)
    ensures PageLsn(RedoAll(st, rs), t, p) >= PageLsn(st, t, p)
    ensures RedoAll(st, rs).files.Keys == st.files.Keys
    decreases |rs|
  {
    if rs != [] {
      var front := RedoAll(st, rs[..|rs| - 1]);
      RedoAllRaises(st, rs[..|rs| - 1], t, p);
      RedoDataRaises(front, rs[|rs| - 1], t, p);
    }
  }

  /** After redo every record of the run is covered by its page's lsn. */
  lemma {:induction false} RedoAllCovers(st: Store, rs: seq<LogRecord>)
    ensures Covered(RedoAll(st, rs), rs)
    decreases |rs|
  {
    if rs != [] {
      var n := |rs| - 1;
      var front := RedoAll(st, rs[..n]);
      var st2 := RedoAll(st, rs);
      RedoAllCovers(st, rs[..n]);
      RedoDataRaises(front, rs[n], rs[n].table, rs[n].rid.pageNo);
      forall i | 0 <= i < |rs| && IsData(rs[i]) && rs[i].table in st2.files
        ensures PageLsn(st2, rs[i].table, rs[i].rid.pageNo) >= rs[i].lsn
      {
        RedoAllRaises(st, rs[..n], rs[i].table, rs[i].rid.pageNo);
        if i < n {
          assert rs[..n][i] == rs[i];
          RedoDataRaises(front, rs[n], rs[i].table, rs[i].rid.pageNo);
        }
      }
    }
  }

  /** Redo over records that are all covered changes nothing. */
  lemma {:induction false} RedoAllCoveredIsNoop(st: Store, rs: seq<LogRecord>)
    requires Covered(st, rs)
    ensures RedoAll(st, rs) == st
    decreases |rs|
  {
    if rs != [] {
      var n := |rs| - 1;
      assert forall i :: 0 <= i < n ==> rs[..n][i] == rs[i];
      RedoAllCoveredIsNoop(st, rs[..n]);
    }
  }

  /** Running redo over the log a second time changes nothing. */
  lemma RedoAllIdempotent(st: Store, rs: seq<LogRecord>)
    ensures RedoAll(RedoAll(st, rs), rs) == RedoAll(st, rs)
  {
    RedoAllCovers(st, rs);
    RedoAllCoveredIsNoop(RedoAll(st, rs), rs);
  }

  /** RedoLog's bookkeeping: a record sets its transaction's last lsn; commit and abort end it. */
  function ActiveStep(active: map<int, int>, r: LogRecord): map<int, int>
  {
    if r.kind == CommitLog || r.kind == AbortLog then active - {r.txnId} else active[r.txnId := r.lsn]
  }

  function ActiveAfter(active: map<int, int>, rs: seq<LogRecord>): map<int, int>
    decreases |rs|
  {
    if rs == [] then active else ActiveStep(ActiveAfter(active, rs[..|rs| - 1]), rs[|rs| - 1])
  }

  /** The index of transaction t's last record in rs, or -1 when it has none. */
  function LastOf(rs: seq<LogRecord>, t: int): (i: int)
    ensures -1 <= i < |rs|
    ensures i >= 0 ==> rs[i].txnId == t
    ensures forall j :: i < j < |rs| ==> rs[j].txnId != t
    decreases |rs|
  {
    if rs == [] then -1
    else if rs[|rs| - 1].txnId == t then |rs| - 1
    else LastOf(rs[..|rs| - 1], t)
  }

  /**
   * After redo from an empty table, exactly the transactions whose last
   * record is neither a commit nor an abort are active, each with the lsn
   * of its last record.
   */
  lemma {:induction false} ActiveAfterExact(rs: seq<LogRecord>, t: int)
    ensures var i := LastOf(rs, t);
      (t in ActiveAfter(map[], rs) <==> i >= 0 && rs[i].kind != CommitLog && rs[i].kind != AbortLog)
      && (t in ActiveAfter(map[], rs) ==> ActiveAfter(map[], rs)[t] == rs[i].lsn)
    decreases |rs|
  {
    if rs != [] {
      ActiveAfterExact(rs[..|rs| - 1], t);
    }
  }

  /** The largest lsn in rs, or `m` when that is larger (INVALID_LSN to start with). */
  function MaxLsn(m: int, rs: seq<LogRecord>): (r: int)
    ensures r >= m && forall i :: 0 <= i < |rs| ==> rs[i].lsn <= r
    ensures r == m || exists i :: 0 <= i < |rs| && rs[i].lsn == r
    decreases |rs|
  {
    if rs == [] then m
    else
      var front := MaxLsn(m, rs[..|rs| - 1]);
      var last := rs[|rs| - 1];
      assert forall i :: 0 <= i < |rs| - 1 ==> rs[..|rs| - 1][i] == rs[i];
      if last.lsn > front then last.lsn else front
  }

  /** lsn_mapping_ after the walk: each record's lsn to its file offset and size. */
  function MappingAfter(m: map<int, (int, int)>, rs: seq<LogRecord>): map<int, (int, int)>
    decreases |rs|
  {
    if rs == [] then m
    else
      var n := |rs| - 1;
      Place(MappingAfter(m, rs[..n]), rs[n], TotLen(rs[..n]))
  }

  /** lsn_mapping_[lsn] = {offset, size} for a record found at offset `at`. */
  function Place(m: map<int, (int, int)>, r: LogRecord, at: int): map<int, (int, int)>
  {
    m[r.lsn := (at, r.totLen)]
  }

  /** With distinct lsns, every record's lsn maps to where the record lies in the file. */
  lemma {:induction false} MappingAfterExact(m: map<int, (int, int)>, rs: seq<LogRecord>, i: int)
    requires LsnsIncrease(rs) && 0 <= i < |rs|
    ensures rs[i].lsn in MappingAfter(m, rs)
    ensures MappingAfter(m, rs)[rs[i].lsn] == (TotLen(rs[..i]), rs[i].totLen)
    decreases |rs|
  {
    var n := |rs| - 1;
    if i < n {
      assert rs[..n][i] == rs[i] && rs[..n][..i] == rs[..i];
      MappingAfterExact(m, rs[..n], i);
    }
  }

  /** A prefix of records of positive length takes less room than the whole run. */
  lemma {:induction false} TotLenPrefix(rs: seq<LogRecord>, j: int)
    requires 0 <= j <= |rs| && forall i :: 0 <= i < |rs| ==> rs[i].totLen > 0
    ensures TotLen(rs[..j]) <= TotLen(rs)
    ensures j == |rs| ==> TotLen(rs[..j]) == TotLen(rs)
    ensures j < |rs| ==> TotLen(rs[..j]) < TotLen(rs) && TotLen(rs[..j + 1]) <= TotLen(rs)
    decreases |rs|
  {
    if j < |rs| {
      var n := |rs| - 1;
      assert rs[..n + 1] == rs;
      if j < n {
        assert rs[..n][..j] == rs[..j] && rs[..n][..j + 1] == rs[..j + 1];
        TotLenPrefix(rs[..n], j);
      }
    } else {
      assert rs[..j] == rs;
    }
  }

  /** A record starts where a prefix of the log ends, if the prefix is not all of it. */
  lemma StartsInside(rs: seq<LogRecord>, j: int)
    requires 0 <= j <= |rs| && TotLen(rs[..j]) < TotLen(rs)
    ensures j < |rs|
  {
    WholePrefix(rs);
  }

  lemma WholePrefix(rs: seq<LogRecord>)
    ensures TotLen(rs[..|rs|]) == TotLen(rs)
  {
    assert rs[..|rs|] == rs;
  }

  /**
   * The log is well formed for the walk: each record is at least a header
   * (through its size field), at most a buffer, and so is the header.
   */
  ghost predicate Walkable(rs: seq<LogRecord>, sizeFieldEnd: nat, capacity: nat)
  {
    0 < sizeFieldEnd <= capacity && forall i :: 0 <= i < |rs| ==> sizeFieldEnd <= rs[i].totLen <= capacity
  }

  // ---- Undo ----

  /**
   * UndoLog's effect on the data: the inverse of a data record of an open
   * table (delete_record for an insert, insert_record of the deleted image
   * for a delete, update_record to the old image for an update) with no
   * page_lsn guard, after which the page's lsn is the undone record's.
   */
  function UndoData(st: Store, r: LogRecord): (st2: Store)
    ensures st2.files.Keys == st.files.Keys
    ensures !(IsData(r) && r.table in st.files) ==> st2 == st
  {
    if !(IsData(r) && r.table in st.files) then st
    else
      var f := st.files[r.table];
      var f2 := if r.kind == InsertLog then f - {r.rid}
                else if r.kind == DeleteLog then f[r.rid := r.value]
                else f[r.rid := r.oldValue];
      Store(st.files[r.table := f2], st.pageLsn[PageKey(r.table, r.rid.pageNo) := r.lsn])
  }

  /** The record the data record r found before it: absent for an insert, its image otherwise. */
  predicate BeforeImage(f: map<Rid, seq<byte>>, r: LogRecord)
  {
    if r.kind == InsertLog then r.rid !in f
    else if r.kind == DeleteLog then r.rid in f && f[r.rid] == r.value
    else r.rid in f && f[r.rid] == r.oldValue
  }

  /** Undoing a record that redo applied to the page it was logged against restores that table. */
  lemma UndoInvertsRedo(st: Store, r: LogRecord)
    requires NeedsRedo(st, r) && BeforeImage(st.files[r.table], r)
    ensures UndoData(RedoData(st, r), r).files == st.files
  {
    var f := st.files[r.table];
    var f2 := RedoData(st, r).files[r.table];
    var f3 := UndoData(RedoData(st, r), r).files[r.table];
    assert f3 == f;
  }

  /**
   * The compensation record UndoLog appends for a data record: a delete
   * for an insert and an insert for a delete, both carrying the record's
   * image, and for an update an update back to the old image; it has the
   * record's length and points back at `prev`.
   */
  function Compensation(r: LogRecord, prev: int): (c: LogRecord)
    requires IsData(r)
    ensures c.txnId == r.txnId && c.prevLsn == prev && c.table == r.table && c.rid == r.rid && IsData(c)
  {
    if r.kind == InsertLog then LogRecord(DeleteLog, r.lsn, r.txnId, prev, r.totLen, r.table, r.rid, r.value, [])
    else if r.kind == DeleteLog then LogRecord(InsertLog, r.lsn, r.txnId, prev, r.totLen, r.table, r.rid, r.value, [])
    else LogRecord(UpdateLog, r.lsn, r.txnId, prev, r.totLen, r.table, r.rid, r.oldValue, r.value)
  }

  /** Redoing a compensation record changes the table as undoing the original record did. */
  lemma CompensationRedoesUndo(st: Store, r: LogRecord, prev: int, lsn: int)
    requires IsData(r) && r.table in st.files && PageLsn(st, r.table, r.rid.pageNo) < lsn
    ensures RedoData(st, Compensation(r, prev).(lsn := lsn)).files == UndoData(st, r).files
  {
  }

  /** active_txn_[t] as undo reads it: a transaction with no entry reads as 0. */
  function LastLsn(active: map<int, int>, t: int): int
  {
    if t in active then active[t] else 0
  }

  /** The abort record undo appends for transaction t, pointing back at `prev`, of length `len`. */
  function AbortRecord(t: int, prev: int, len: nat): LogRecord
  {
    LogRecord(AbortLog, 0, t, prev, len, [], Rid(-1, -1), [], [])
  }

  /**
   * From position base on, the log holds an abort record for each
   * transaction of order in turn, pointing back at its lsn in active.
   */
  predicate AbortsAt(all: seq<LogRecord>, base: nat, order: seq<int>, active: map<int, int>, len: nat)
  {
    && base + |order| <= |all|
    && forall k :: 0 <= k < |order| ==>
      order[k] in active && all[base + k] == AbortRecord(order[k], active[order[k]], len).(lsn := all[base + k].lsn)
  }

  /** The record that starts at byte offset `off` of the log file rs, if one does. */
  function RecordAt(rs: seq<LogRecord>, off: int): Option<LogRecord>
    decreases |rs|
  {
    if rs == [] then None
    else if off == 0 then Some(rs[0])
    else if off < rs[0].totLen then None
    else RecordAt(rs[1..], off - rs[0].totLen)
  }

  lemma {:induction false} TotLenFront(rs: seq<LogRecord>)
    requires rs != []
    ensures TotLen(rs) == rs[0].totLen + TotLen(rs[1..])
    decreases |rs|
  {
    var n := |rs| - 1;
    if n > 0 {
      TotLenFront(rs[..n]);
      assert rs[..n][1..] == rs[1..][..n - 1];
      assert rs[1..][n - 1] == rs[n];
    } else {
      assert rs[..n] == [] && rs[1..] == [];
    }
  }

  /** The record at the offset where the first i records end is record i. */
  lemma {:induction false} RecordAtPrefix(rs: seq<LogRecord>, i: int)
    requires 0 <= i < |rs| && forall k :: 0 <= k < |rs| ==> rs[k].totLen > 0
    ensures RecordAt(rs, TotLen(rs[..i])) == Some(rs[i])
    decreases i
  {
    if i > 0 {
      TotLenFront(rs[..i]);
      assert rs[..i][0] == rs[0];
      assert rs[..i][1..] == rs[1..][..i - 1];
      RecordAtPrefix(rs[1..], i - 1);
    }
  }

  /** Appending to the log file does not move a record already in it. */
  lemma {:induction false} RecordAtExtend(rs: seq<LogRecord>, more: seq<LogRecord>, off: int)
    requires RecordAt(rs, off).Some?
    ensures RecordAt(rs + more, off) == RecordAt(rs, off)
    decreases |rs|
  {
    assert (rs + more)[0] == rs[0];
    if off != 0 && off >= rs[0].totLen {
      assert (rs + more)[1..] == rs[1..] + more;
      RecordAtExtend(rs[1..], more, off - rs[0].totLen);
    }
  }

  /** Every lsn in the mapping leads to a record of that lsn in the file. */
  ghost predicate MappingSound(m: map<int, (int, int)>, rs: seq<LogRecord>)
  {
    forall l :: l in m ==> RecordAt(rs, m[l].0).Some? && RecordAt(rs, m[l].0).value.lsn == l
  }

  lemma {:induction false} MappingAfterKeys(m: map<int, (int, int)>, rs: seq<LogRecord>, l: int)
    requires l in MappingAfter(m, rs)
    ensures l in m || exists i :: 0 <= i < |rs| && rs[i].lsn == l
    decreases |rs|
  {
    if rs != [] {
      var n := |rs| - 1;
      if l != rs[n].lsn {
        MappingAfterKeys(m, rs[..n], l);
        if l !in m {
          var i :| 0 <= i < n && rs[..n][i].lsn == l;
          assert rs[i].lsn == l;
        }
      }
    }
  }

  /** The mapping redo builds from scratch over a log of distinct lsns leads to the right records. */
  lemma RedoMapsSoundly(rs: seq<LogRecord>)
    requires LsnsIncrease(rs) && forall k :: 0 <= k < |rs| ==> rs[k].totLen > 0
    ensures MappingSound(MappingAfter(map[], rs), rs)
  {
    var m := MappingAfter(map[], rs);
    forall l | l in m
      ensures RecordAt(rs, m[l].0).Some? && RecordAt(rs, m[l].0).value.lsn == l
    {
      MappingAfterKeys(map[], rs, l);
      var i :| 0 <= i < |rs| && rs[i].lsn == l;
      MappingAfterExact(map[], rs, i);
      RecordAtPrefix(rs, i);
    }
  }

  /** The records the mapping leads to, by lsn. */
  ghost function Records(m: map<int, (int, int)>, rs: seq<LogRecord>): (recs: map<int, LogRecord>)
    requires MappingSound(m, rs)
    ensures recs.Keys == m.Keys
    ensures forall l :: l in m ==> RecordAt(rs, m[l].0) == Some(recs[l])
  {
    map l | l in m :: RecordAt(rs, m[l].0).value
  }

  /**
   * Record l as undo needs it: its lsn is not negative, it fits a buffer,
   * and its prev_lsn is INVALID_LSN or the lsn of an earlier record of the
   * same transaction.
   */
  ghost predicate PrevOk(recs: map<int, LogRecord>, capacity: nat, l: int)
    requires l in recs
  {
    && 0 <= l && 0 < recs[l].totLen <= capacity
    && (|| recs[l].prevLsn == INVALID_LSN
        || (recs[l].prevLsn in recs && 0 <= recs[l].prevLsn < l && recs[recs[l].prevLsn].txnId == recs[l].txnId))
  }

  /** Every record is as undo needs it. */
  ghost predicate Chained(recs: map<int, LogRecord>, capacity: nat)
  {
    forall l {:trigger PrevOk(recs, capacity, l)} :: l in recs ==> PrevOk(recs, capacity, l)
  }

  /** The log file and mapping as undo needs them: the mapping is sound and the records chained. */
  ghost predicate Linked(m: map<int, (int, int)>, rs: seq<LogRecord>, capacity: nat)
  {
    MappingSound(m, rs) && Chained(Records(m, rs), capacity)
  }

  /** The lsns of l's prev_lsn chain, l included. */
  ghost function Chain(recs: map<int, LogRecord>, c: nat, l: int): (ch: set<int>)
    requires Chained(recs, c) && l in recs
    ensures l in ch && forall x :: x in ch ==> x in recs && x <= l
    decreases l
  {
    assert PrevOk(recs, c, l);
    if recs[l].prevLsn == INVALID_LSN then {l} else {l} + Chain(recs, c, recs[l].prevLsn)
  }

  /** The lsns of the chains starting at the lsns of ws. */
  ghost function ChainsOf(recs: map<int, LogRecord>, c: nat, ws: set<int>): set<int>
    requires Chained(recs, c) && ws <= recs.Keys
  {
    set w, l | w in ws && l in Chain(recs, c, w) :: l
  }

  /** Undo of the records of the lsns ls, one after another. */
  ghost function UndoAllData(st: Store, recs: map<int, LogRecord>, ls: seq<int>): Store
    requires forall i :: 0 <= i < |ls| ==> ls[i] in recs
    decreases |ls|
  {
    if ls == [] then st
    else UndoData(UndoAllData(st, recs, ls[..|ls| - 1]), recs[ls[|ls| - 1]])
  }

  /**
   * One record's part of the undo trail t (the compensation records so far
   * and each transaction's last lsn), compensations numbered from g: a data
   * record of a table in `tables` gets a compensation record pointing back
   * at its transaction's last lsn, and that lsn becomes the compensation's;
   * any other record adds nothing.
   */
  function TrailStep(t: (seq<LogRecord>, map<int, int>), r: LogRecord, tables: set<string>, g: int): (seq<LogRecord>, map<int, int>)
  {
    if IsData(r) && r.table in tables then
      var lsn := g + |t.0|;
      (t.0 + [Compensation(r, LastLsn(t.1, r.txnId)).(lsn := lsn)], t.1[r.txnId := lsn])
    else t
  }

  /** The undo trail of the records of the lsns ls, one after another, from the last lsns `active`. */
  ghost function UndoTrail(recs: map<int, LogRecord>, ls: seq<int>, tables: set<string>, active: map<int, int>, g: int): (seq<LogRecord>, map<int, int>)
    requires forall i :: 0 <= i < |ls| ==> ls[i] in recs
    decreases |ls|
  {
    if ls == [] then ([], active)
    else TrailStep(UndoTrail(recs, ls[..|ls| - 1], tables, active, g), recs[ls[|ls| - 1]], tables, g)
  }

  /** A step from a trail continues it: it is the step from an empty trail, numbered after it. */
  lemma TrailStepShift(t: (seq<LogRecord>, map<int, int>), r: LogRecord, tables: set<string>, g: int)
    ensures var u := TrailStep(([], t.1), r, tables, g + |t.0|);
      TrailStep(t, r, tables, g) == (t.0 + u.0, u.1)
  {
    if IsData(r) && r.table in tables {
      var c := Compensation(r, LastLsn(t.1, r.txnId)).(lsn := g + |t.0|);
      assert [] + [c] == [c];
    } else {
      assert t.0 + [] == t.0;
    }
  }

  /**
   * The log, last lsns and next lsn that hold the undo trail of `undone`
   * hold that of `undone` and one more lsn once that record's step is done.
   */
  lemma UndoTrailSnoc(recs: map<int, LogRecord>, undone: seq<int>, lsn: int, tables: set<string>, active0: map<int, int>, g0: int,
                      all0: seq<LogRecord>, logBefore: seq<LogRecord>, logAfter: seq<LogRecord>,
                      aBefore: map<int, int>, aAfter: map<int, int>, gBefore: int, gAfter: int)
    requires (forall i :: 0 <= i < |undone| ==> undone[i] in recs) && lsn in recs
    requires var t := UndoTrail(recs, undone, tables, active0, g0);
      logBefore == all0 + t.0 && aBefore == t.1 && gBefore == g0 + |t.0|
    requires var u := TrailStep(([], aBefore), recs[lsn], tables, gBefore);
      logAfter == logBefore + u.0 && aAfter == u.1 && gAfter == gBefore + |u.0|
    ensures var t2 := UndoTrail(recs, undone + [lsn], tables, active0, g0);
      logAfter == all0 + t2.0 && aAfter == t2.1 && gAfter == g0 + |t2.0|
  {
    var t := UndoTrail(recs, undone, tables, active0, g0);
    assert (undone + [lsn])[..|undone|] == undone;
    TrailStepShift(t, recs[lsn], tables, g0);
    var u := TrailStep(([], aBefore), recs[lsn], tables, gBefore);
    assert all0 + t.0 + u.0 == all0 + (t.0 + u.0);
  }

  /**
   * The log after undo: the log all0 it started from, then the
   * compensation records clrs, then an abort record for each transaction
   * of order in turn, pointing back at its last lsn in active.
   */
  predicate UndoneLog(all: seq<LogRecord>, all0: seq<LogRecord>, clrs: seq<LogRecord>, order: seq<int>, active: map<int, int>, len: nat)
  {
    && |all| == |all0| + |clrs| + |order|
    && all[..|all0| + |clrs|] == all0 + clrs
    && AbortsAt(all, |all0| + |clrs|, order, active, len)
  }

  /** A log that grew past all0 + clrs by the abort records of `order` is the log after undo. */
  lemma GrownBy(all0: seq<LogRecord>, clrs: seq<LogRecord>, mid: seq<LogRecord>, all: seq<LogRecord>,
                order: seq<int>, active: map<int, int>, len: nat)
    requires mid == all0 + clrs && mid <= all && |all| == |mid| + |order| && AbortsAt(all, |mid|, order, active, len)
    ensures UndoneLog(all, all0, clrs, order, active, len)
  {
  }

  /** Each transaction's last lsn after the records cs, starting from `active`. */
  function LastMap(cs: seq<LogRecord>, active: map<int, int>): map<int, int>
    decreases |cs|
  {
    if cs == [] then active
    else LastMap(cs[..|cs| - 1], active)[cs[|cs| - 1].txnId := cs[|cs| - 1].lsn]
  }

  /**
   * Compensation records numbered g, g+1, ... in order, each pointing back
   * at its transaction's last lsn after the ones before it.
   */
  predicate Numbered(cs: seq<LogRecord>, active: map<int, int>, g: int)
  {
    forall k :: 0 <= k < |cs| ==>
      cs[k].lsn == g + k && IsData(cs[k]) && cs[k].prevLsn == LastLsn(LastMap(cs[..k], active), cs[k].txnId)
  }

  lemma NumberedAppend(cs: seq<LogRecord>, c: LogRecord, active: map<int, int>, g: int)
    requires Numbered(cs, active, g)
    requires c.lsn == g + |cs| && IsData(c) && c.prevLsn == LastLsn(LastMap(cs, active), c.txnId)
    ensures Numbered(cs + [c], active, g)
    ensures LastMap(cs + [c], active) == LastMap(cs, active)[c.txnId := c.lsn]
  {
    var cs2 := cs + [c];
    assert cs2[..|cs|] == cs;
    forall k | 0 <= k < |cs2|
      ensures cs2[k].lsn == g + k && IsData(cs2[k]) && cs2[k].prevLsn == LastLsn(LastMap(cs2[..k], active), cs2[k].txnId)
    {
      if k < |cs| {
        assert cs2[k] == cs[k] && cs2[..k] == cs[..k];
      }
    }
  }

  /**
   * The compensation records of the trail are numbered g, g+1, ... in
   * order, each points back at its transaction's last lsn after the ones
   * before it, and the last lsns afterwards are those the compensations
   * leave.
   */
  lemma {:induction false} TrailLinks(recs: map<int, LogRecord>, ls: seq<int>, tables: set<string>, active: map<int, int>, g: int)
    requires forall i :: 0 <= i < |ls| ==> ls[i] in recs
    ensures var t := UndoTrail(recs, ls, tables, active, g);
      t.1 == LastMap(t.0, active) && Numbered(t.0, active, g)
    decreases |ls|
  {
    if ls != [] {
      var n := |ls| - 1;
      TrailLinks(recs, ls[..n], tables, active, g);
      var t0 := UndoTrail(recs, ls[..n], tables, active, g);
      var r := recs[ls[n]];
      if IsData(r) && r.table in tables {
        var c := Compensation(r, LastLsn(t0.1, r.txnId)).(lsn := g + |t0.0|);
        assert UndoTrail(recs, ls, tables, active, g) == (t0.0 + [c], t0.1[r.txnId := c.lsn]);
        NumberedAppend(t0.0, c, active, g);
      } else {
        assert UndoTrail(recs, ls, tables, active, g) == t0;
      }
    }
  }

  /** A transaction with no compensation among cs keeps its last lsn. */
  lemma {:induction false} LastMapNone(cs: seq<LogRecord>, active: map<int, int>, t: int)
    requires forall k :: 0 <= k < |cs| ==> cs[k].txnId != t
    ensures LastLsn(LastMap(cs, active), t) == LastLsn(active, t)
    decreases |cs|
  {
    if cs != [] {
      var n := |cs| - 1;
      assert cs[n].txnId != t;
      LastMapNone(cs[..n], active, t);
    }
  }

  /** A transaction whose last compensation among cs is cs[k] ends at that record's lsn. */
  lemma {:induction false} LastMapLast(cs: seq<LogRecord>, active: map<int, int>, t: int, k: nat)
    requires k < |cs| && cs[k].txnId == t && forall j :: k < j < |cs| ==> cs[j].txnId != t
    ensures LastLsn(LastMap(cs, active), t) == cs[k].lsn
    decreases |cs|
  {
    var n := |cs| - 1;
    if k < n {
      assert cs[n].txnId != t;
      assert cs[..n][k] == cs[k];
      LastMapLast(cs[..n], active, t, k);
    }
  }

  /** Strictly increasing, as a std::set<lsn_t> iterates. */
  predicate Sorted(s: seq<int>)
  {
    forall i, j :: 0 <= i < j < |s| ==> s[i] < s[j]
  }

  /** The lsns a worklist holds. */
  function Elems(s: seq<int>): set<int>
  {
    set x | x in s
  }

  /** std::set insert on a strictly increasing sequence. */
  function SetInsert(s: seq<int>, x: int): (r: seq<int>)
    requires Sorted(s)
    ensures Sorted(r) && forall y :: y in r <==> y in s || y == x
    decreases |s|
  {
    if s == [] then [x]
    else if x < s[0] then [x] + s
    else if x == s[0] then s
    else
      var rest := SetInsert(s[1..], x);
      SortedTail(s);
      SortedCons(s[0], rest);
      assert s == [s[0]] + s[1..];
      [s[0]] + rest
  }

  /** Every element after the head of a strictly increasing sequence exceeds it. */
  lemma SortedTail(s: seq<int>)
    requires Sorted(s) && s != []
    ensures Sorted(s[1..]) && forall y :: y in s[1..] ==> s[0] < y
  {
    forall y | y in s[1..] ensures s[0] < y {
      var i :| 0 <= i < |s[1..]| && s[1..][i] == y;
      assert s[i + 1] == y;
    }
  }

  /** A head below every element of a strictly increasing tail keeps it so. */
  lemma SortedCons(h: int, t: seq<int>)
    requires Sorted(t) && forall y :: y in t ==> h < y
    ensures Sorted([h] + t)
  {
    var r := [h] + t;
    forall i, j | 0 <= i < j < |r| ensures r[i] < r[j] {
      assert r[j] == t[j - 1] && t[j - 1] in t;
      if i > 0 {
        assert r[i] == t[i - 1];
      }
    }
  }

  /** The worklist after undoing lsn: lsn leaves it and its prev_lsn, unless INVALID_LSN, joins it. */
  function NextWork(next: set<int>, lsn: int, prev: int): set<int>
  {
    if prev != INVALID_LSN then next - {lsn} + {prev} else next - {lsn}
  }

  /**
   * Taking the largest lsn l off the worklist and putting its prev_lsn on
   * instead leaves l plus the new worklist's chains equal to the old
   * worklist's chains, and l is in none of the new chains.
   */
  lemma ChainsTake(recs: map<int, LogRecord>, c: nat, next: set<int>, l: int)
    requires Chained(recs, c) && next <= recs.Keys && l in next && forall y :: y in next ==> y <= l
    ensures NextWork(next, l, recs[l].prevLsn) <= recs.Keys
    ensures {l} + ChainsOf(recs, c, NextWork(next, l, recs[l].prevLsn)) == ChainsOf(recs, c, next)
    ensures l !in ChainsOf(recs, c, NextWork(next, l, recs[l].prevLsn))
  {
    assert PrevOk(recs, c, l);
    var p := recs[l].prevLsn;
    var next2 := NextWork(next, l, p);
    var lhs := {l} + ChainsOf(recs, c, next2);
    var rhs := ChainsOf(recs, c, next);
    forall x | x in rhs ensures x in lhs {
      var w :| w in next && x in Chain(recs, c, w);
      if w != l {
        assert w in next2;
      } else if x != l {
        assert p in next2 && x in Chain(recs, c, p);
      }
    }
    forall x | x in lhs ensures x in rhs {
      if x == l {
        assert x in Chain(recs, c, l);
      } else {
        var w :| w in next2 && x in Chain(recs, c, w);
        if w !in next {
          assert w == p && Chain(recs, c, l) == {l} + Chain(recs, c, p);
          assert x in Chain(recs, c, l);
        }
      }
    }
    forall x | x in ChainsOf(recs, c, next2) ensures x < l {
      var w :| w in next2 && x in Chain(recs, c, w);
    }
  }

  /** Strictly decreasing. */
  predicate Decreasing(u: seq<int>)
  {
    forall i, j :: 0 <= i < j < |u| ==> u[i] > u[j]
  }

  lemma DecreasingAppend(u: seq<int>, l: int)
    requires Decreasing(u) && (u != [] ==> u[|u| - 1] > l)
    ensures Decreasing(u + [l]) && (u + [l])[..|u|] == u
  {
    var u2 := u + [l];
    forall i, j | 0 <= i < j < |u2| ensures u2[i] > u2[j] {
      if j == |u| {
        var last := |u| - 1;
        if i < last {
          assert u[i] > u[last];
        }
        assert u2[i] == u[i];
      } else {
        assert u2[i] == u[i] && u2[j] == u[j];
      }
    }
    assert u2[..|u|] == u;
  }

  /**
   * The undo loop's state: the lsns undone so far strictly decrease and
   * lie above the worklist, and together with the worklist's chains they
   * make up the chains of the seeds.
   */
  ghost predicate WorkState(recs: map<int, LogRecord>, c: nat, seeds: set<int>, next: set<int>, undone: seq<int>)
  {
    && Chained(recs, c) && seeds <= recs.Keys && next <= recs.Keys
    && Decreasing(undone)
    && (forall i :: 0 <= i < |undone| ==> undone[i] in recs)
    && (undone != [] ==> forall w :: w in next ==> w < undone[|undone| - 1])
    && Elems(undone) + ChainsOf(recs, c, next) == ChainsOf(recs, c, seeds)
  }

  lemma WorkStart(recs: map<int, LogRecord>, c: nat, seeds: set<int>)
    requires Chained(recs, c) && seeds <= recs.Keys
    ensures WorkState(recs, c, seeds, seeds, [])
  {
    assert Elems([]) == {};
  }

  /** Every lsn of the worklist after undoing its largest, l, is a known lsn below l. */
  lemma NextWorkBelow(recs: map<int, LogRecord>, c: nat, next: set<int>, l: int)
    requires Chained(recs, c) && next <= recs.Keys && l in next && forall y :: y in next ==> y <= l
    ensures forall w :: w in NextWork(next, l, recs[l].prevLsn) ==> w in recs && 0 <= w < l
    ensures forall w :: w in NextWork(next, l, recs[l].prevLsn) ==> w in next || recs[w].txnId == recs[l].txnId
  {
    assert PrevOk(recs, c, l);
    forall w | w in NextWork(next, l, recs[l].prevLsn) ensures 0 <= w {
      assert PrevOk(recs, c, w);
    }
  }

  /** One round of the undo loop keeps the state and lowers the largest lsn of the worklist. */
  lemma WorkStep(recs: map<int, LogRecord>, c: nat, seeds: set<int>, next: set<int>, undone: seq<int>, l: int)
    requires WorkState(recs, c, seeds, next, undone) && l in next && forall y :: y in next ==> y <= l
    ensures WorkState(recs, c, seeds, NextWork(next, l, recs[l].prevLsn), undone + [l])
    ensures forall w :: w in NextWork(next, l, recs[l].prevLsn) ==> 0 <= w < l
    ensures forall w :: w in NextWork(next, l, recs[l].prevLsn) ==> w in next || recs[w].txnId == recs[l].txnId
  {
    var next2 := NextWork(next, l, recs[l].prevLsn);
    ChainsTake(recs, c, next, l);
    NextWorkBelow(recs, c, next, l);
    DecreasingAppend(undone, l);
    ElemsSnoc(undone, l);
    var ch2, ch := ChainsOf(recs, c, next2), ChainsOf(recs, c, next);
    UnionShift(Elems(undone), l, ch2, ch);
    forall i | 0 <= i < |undone| + 1 ensures (undone + [l])[i] in recs {
      if i < |undone| {
        assert (undone + [l])[i] == undone[i];
      }
    }
  }

  lemma ElemsSnoc(u: seq<int>, l: int)
    ensures Elems(u + [l]) == Elems(u) + {l}
  {
    assert forall x :: x in u + [l] <==> x in u || x == l;
  }

  /** Moving l from the second set to the first leaves the union as it was. */
  lemma UnionShift(a: set<int>, l: int, b: set<int>, c: set<int>)
    requires {l} + b == c
    ensures (a + {l}) + b == a + c
  {
  }

  /**
   * The sorted worklist after undoing its last (largest) lsn: the lsn is
   * erased and its prev_lsn, unless INVALID_LSN, inserted.
   */
  function NextWorkSeq(next: seq<int>, prev: int): (r: seq<int>)
    requires Sorted(next) && next != []
    ensures Sorted(r) && Elems(r) == NextWork(Elems(next), next[|next| - 1], prev)
  {
    var n := |next| - 1;
    var rest := next[..n];
    assert Elems(next) == Elems(rest) + {next[n]} by {
      assert next == rest + [next[n]];
    }
    assert next[n] !in rest;
    if prev != INVALID_LSN then SetInsert(rest, prev) else rest
  }

  /**
   * One round of the undo loop on the sorted worklist: taking its largest
   * lsn l off and putting l's prev_lsn on keeps WorkState with l undone,
   * keeps every worklist record's transaction among keys, and lowers the
   * largest lsn of the worklist.
   */
  lemma RoundFacts(recs: map<int, LogRecord>, c: nat, seeds: set<int>, keys: set<int>, next: seq<int>, undone: seq<int>)
    requires Sorted(next) && next != [] && WorkState(recs, c, seeds, Elems(next), undone)
    requires forall w :: w in next ==> recs[w].txnId in keys
    ensures WorkState(recs, c, seeds, Elems(NextWorkSeq(next, recs[next[|next| - 1]].prevLsn)), undone + [next[|next| - 1]])
    ensures forall w :: w in NextWorkSeq(next, recs[next[|next| - 1]].prevLsn) ==> recs[w].txnId in keys
    ensures 0 <= next[|next| - 1]
    ensures NextWorkSeq(next, recs[next[|next| - 1]].prevLsn) != [] ==>
      0 <= NextWorkSeq(next, recs[next[|next| - 1]].prevLsn)[|NextWorkSeq(next, recs[next[|next| - 1]].prevLsn)| - 1] < next[|next| - 1]
  {
    var l := next[|next| - 1];
    assert l in Elems(next) && forall y :: y in Elems(next) ==> y <= l;
    WorkStep(recs, c, seeds, Elems(next), undone, l);
    var set2 := NextWork(Elems(next), l, recs[l].prevLsn);
    assert forall w :: w in set2 ==> 0 <= w < l && (w in next || recs[w].txnId == recs[l].txnId);
    assert PrevOk(recs, c, l);
    var next2 := NextWorkSeq(next, recs[l].prevLsn);
    assert Elems(next2) == set2;
    forall w | w in next2 ensures recs[w].txnId in keys {
      assert w in set2;
    }
    if next2 != [] {
      assert next2[|next2| - 1] in set2;
    }
  }

  /** The lsns undo seeds its worklist with: each active transaction's last lsn. */
  function ActiveLsns(active: map<int, int>): set<int>
  {
    set t | t in active :: active[t]
  }

  /** A seeded worklist holds only lsns of records of the active transactions. */
  lemma SeedsKnown(active: map<int, int>, recs: map<int, LogRecord>, next: seq<int>)
    requires Elems(next) == ActiveLsns(active)
    requires forall t :: t in active ==> active[t] in recs && recs[active[t]].txnId == t
    ensures Elems(next) <= recs.Keys && forall w :: w in next ==> recs[w].txnId in active
  {
    forall w | w in next ensures w in recs && recs[w].txnId in active {
      assert w in ActiveLsns(active);
      var t :| t in active && active[t] == w;
    }
  }

  /**
   * The worklist seeded by inserting the last lsn of each active
   * transaction, visiting them in `order` (the order active_txn_ is
   * iterated in).
   */
  method Seed(active: map<int, int>, order: seq<int>) returns (next: seq<int>)
    requires forall t :: t in order <==> t in active
    ensures Sorted(next) && Elems(next) == ActiveLsns(active)
  {
    next := [];
    var k := 0;
    while k < |order|
      invariant 0 <= k <= |order| && Sorted(next)
      invariant forall y :: y in next <==> exists t :: t in order[..k] && t in active && active[t] == y
    {
      var t := order[k];
      assert t in order;
      next := SetInsert(next, active[t]);
      assert order[..k + 1] == order[..k] + [t];
      k := k + 1;
    }
    assert order[..k] == order;
    forall l | l in ActiveLsns(active) ensures l in next {
      var t :| t in active && active[t] == l;
      assert t in order[..k];
    }
    forall l | l in next ensures l in ActiveLsns(active) {
      var t :| t in order[..k] && t in active && active[t] == l;
    }
    assert Elems(next) == ActiveLsns(active);
  }

  /** Taking record j extends each fold over the prefix by one step. */
  lemma PrefixStep(rs: seq<LogRecord>, j: nat, a0: map<int, int>, m0: map<int, (int, int)>, s0: Store)
    requires j < |rs|
    ensures TotLen(rs[..j + 1]) == TotLen(rs[..j]) + rs[j].totLen
    ensures ActiveAfter(a0, rs[..j + 1]) == ActiveStep(ActiveAfter(a0, rs[..j]), rs[j])
    ensures MappingAfter(m0, rs[..j + 1]) == Place(MappingAfter(m0, rs[..j]), rs[j], TotLen(rs[..j]))
    ensures RedoAll(s0, rs[..j + 1]) == RedoData(RedoAll(s0, rs[..j]), rs[j])
    ensures MaxLsn(INVALID_LSN, rs[..j + 1]) == if MaxLsn(INVALID_LSN, rs[..j]) > rs[j].lsn then MaxLsn(INVALID_LSN, rs[..j]) else rs[j].lsn
  {
    assert rs[..j + 1][..j] == rs[..j];
  }

  /**
   * The state of the undo loop apart from the log manager: the sorted
   * worklist next and the lsns undone so far are as WorkState says for
   * the seeds, the store is store0 with the undone records undone, the
   * active transactions are still keys, and the log (from all0, next lsn
   * g0 and last lsns active0) has gained exactly the undo trail of the
   * undone records.
   */
  ghost predicate UndoState(recs: map<int, LogRecord>, capacity: nat, seeds: set<int>, keys: set<int>, store0: Store,
                            active0: map<int, int>, g0: int, all0: seq<LogRecord>, next: seq<int>, undone: seq<int>,
                            store: Store, active: map<int, int>, all: seq<LogRecord>, gl: int)
  {
    && Sorted(next) && WorkState(recs, capacity, seeds, Elems(next), undone)
    && (forall w :: w in next ==> recs[w].txnId in keys)
    && store == UndoAllData(store0, recs, undone)
    && store.files.Keys == store0.files.Keys
    && active.Keys == keys
    && var t := UndoTrail(recs, undone, store0.files.Keys, active0, g0);
      all == all0 + t.0 && active == t.1 && gl == g0 + |t.0|
  }

  /** What a round of undo needs of its state: the record it takes is known and undoable, and its transaction is active. */
  lemma UndoStateFacts(recs: map<int, LogRecord>, capacity: nat, seeds: set<int>, keys: set<int>, store0: Store,
                       active0: map<int, int>, g0: int, all0: seq<LogRecord>, next: seq<int>, undone: seq<int>,
                       store: Store, active: map<int, int>, all: seq<LogRecord>, gl: int)
    requires next != [] && UndoState(recs, capacity, seeds, keys, store0, active0, g0, all0, next, undone, store, active, all, gl)
    ensures next[|next| - 1] in recs && 0 < recs[next[|next| - 1]].totLen <= capacity
    ensures recs[next[|next| - 1]].txnId in active
    ensures store.files.Keys == store0.files.Keys && active == UndoTrail(recs, undone, store0.files.Keys, active0, g0).1
  {
    var l := next[|next| - 1];
    assert l in Elems(next);
    assert PrevOk(recs, capacity, l);
  }

  /**
   * One round of undo keeps the state: the largest lsn of the worklist is
   * undone on the store, its undo trail step is added to the log, and the
   * worklist becomes NextWorkSeq; its largest lsn drops.
   */
  lemma UndoStateStep(recs: map<int, LogRecord>, capacity: nat, seeds: set<int>, keys: set<int>, store0: Store,
                      active0: map<int, int>, g0: int, all0: seq<LogRecord>, next: seq<int>, undone: seq<int>,
                      store: Store, active: map<int, int>, all: seq<LogRecord>, gl: int,
                      store2: Store, active2: map<int, int>, all2: seq<LogRecord>, gl2: int)
    requires next != [] && UndoState(recs, capacity, seeds, keys, store0, active0, g0, all0, next, undone, store, active, all, gl)
    requires next[|next| - 1] in recs
    requires store2 == UndoData(store, recs[next[|next| - 1]])
    requires var u := TrailStep(([], active), recs[next[|next| - 1]], store.files.Keys, gl);
      all2 == all + u.0 && active2 == u.1 && gl2 == gl + |u.0|
    ensures UndoState(recs, capacity, seeds, keys, store0, active0, g0, all0,
                      NextWorkSeq(next, recs[next[|next| - 1]].prevLsn), undone + [next[|next| - 1]], store2, active2, all2, gl2)
    ensures 0 <= next[|next| - 1]
    ensures var next2 := NextWorkSeq(next, recs[next[|next| - 1]].prevLsn);
      next2 != [] ==> 0 <= next2[|next2| - 1] < next[|next| - 1]
  {
    var lsn := next[|next| - 1];
    RoundFacts(recs, capacity, seeds, keys, next, undone);
    assert (undone + [lsn])[..|undone|] == undone;
    UndoTrailSnoc(recs, undone, lsn, store0.files.Keys, active0, g0, all0, all, all2, active, active2, gl, gl2);
    var u := TrailStep(([], active), recs[lsn], store.files.Keys, gl);
    assert active2.Keys == active.Keys by {
      if u.1 != active {
        assert recs[lsn].txnId in active by {
          assert lsn in next;
        }
      }
    }
  }

  class RecoveryManager {
    const log: LogManager
    /** OFFSET_LOG_TOT_LEN + sizeof(uint32_t): where a record's size field ends. */
    const sizeFieldEnd: nat
    /** LOG_HEADER_SIZE: the length of a record with no body, such as an abort record. */
    const headerLen: nat
    var activeTxn: map<int, int>
    var lsnMapping: map<int, (int, int)>
    var store: Store

    constructor(log: LogManager, sizeFieldEnd: nat, headerLen: nat, store: Store)
      ensures this.log == log && this.sizeFieldEnd == sizeFieldEnd && this.headerLen == headerLen
      ensures this.store == store && activeTxn == map[] && lsnMapping == map[]
    {
      this.log := log;
      this.sizeFieldEnd := sizeFieldEnd;
      this.headerLen := headerLen;
      this.store := store;
      activeTxn := map[];
      lsnMapping := map[];
    }

    /**
     * RedoLog: the transaction's last lsn becomes the record's, commit and
     * abort erase the transaction, and a data record goes through the
     * page_lsn guard.
     */
    method RedoLog(r: LogRecord)
      modifies this`activeTxn, this`store
      ensures activeTxn == ActiveStep(old(activeTxn), r)
      ensures store == RedoData(old(store), r)
    {
      activeTxn := activeTxn[r.txnId := r.lsn];
      if r.kind == CommitLog || r.kind == AbortLog {
        activeTxn := activeTxn - {r.txnId};
      } else if IsData(r) && r.table in store.files {
        if PageLsn(store, r.table, r.rid.pageNo) >= r.lsn {
          return;
        }
        var f := store.files[r.table];
        if r.kind == InsertLog || r.kind == UpdateLog {
          f := f[r.rid := r.value];
        } else {
          f := f - {r.rid};
        }
        store := Store(store.files[r.table := f], store.pageLsn[PageKey(r.table, r.rid.pageNo) := r.lsn]);
      }
    }

    /** One record taken by redo at file offset `at`: mapped to its place, then redone. */
    method TakeRecord(r: LogRecord, at: int)
      modifies this`activeTxn, this`lsnMapping, this`store
      ensures lsnMapping == Place(old(lsnMapping), r, at)
      ensures activeTxn == ActiveStep(old(activeTxn), r) && store == RedoData(old(store), r)
    {
      lsnMapping := lsnMapping[r.lsn := (at, r.totLen)];
      RedoLog(r);
    }

    /**
     * The records redo takes from one chunk of readBytes bytes read at
     * `offset` into a buffer of `capacity` bytes, starting with record j:
     * one after another while they start inside the chunk and neither their
     * header nor their body passes the end of the buffer. Each raises the
     * largest lsn seen and is taken. At least one record is taken.
     */
    method RedoChunk(rs: seq<LogRecord>, capacity: nat, offset: nat, readBytes: int, j: nat, maxLsn: int,
                     ghost a0: map<int, int>, ghost m0: map<int, (int, int)>, ghost s0: Store)
      returns (inner: nat, j2: nat, max2: int)
      requires Walkable(rs, sizeFieldEnd, capacity)
      requires j <= |rs| && offset == TotLen(rs[..j]) && 0 < readBytes <= TotLen(rs) - offset
      requires activeTxn == ActiveAfter(a0, rs[..j]) && lsnMapping == MappingAfter(m0, rs[..j])
      requires store == RedoAll(s0, rs[..j]) && maxLsn == MaxLsn(INVALID_LSN, rs[..j])
      modifies this`activeTxn, this`lsnMapping, this`store
      ensures inner > 0 && j2 <= |rs| && offset + inner == TotLen(rs[..j2])
      ensures activeTxn == ActiveAfter(a0, rs[..j2]) && lsnMapping == MappingAfter(m0, rs[..j2])
      ensures store == RedoAll(s0, rs[..j2]) && max2 == MaxLsn(INVALID_LSN, rs[..j2])
    {
      inner, j2, max2 := 0, j, maxLsn;
      var stop := false;
      while inner <= readBytes - 1 && !stop
        invariant j2 <= |rs| && offset + inner == TotLen(rs[..j2])
        invariant stop || inner >= readBytes ==> inner > 0
        invariant activeTxn == ActiveAfter(a0, rs[..j2]) && lsnMapping == MappingAfter(m0, rs[..j2])
        invariant store == RedoAll(s0, rs[..j2]) && max2 == MaxLsn(INVALID_LSN, rs[..j2])
        decreases readBytes - inner, if stop then 0 else 1
      {
        StartsInside(rs, j2);
        if inner + sizeFieldEnd > capacity {
          stop := true;
        } else {
          var size := rs[j2].totLen;
          if size == 0 || size + inner > capacity {
            stop := true;
          } else {
            var r := rs[j2];
            max2 := if max2 > r.lsn then max2 else r.lsn;
            var at := offset + inner;
            PrefixStep(rs, j2, a0, m0, s0);
            assert at == TotLen(rs[..j2]);
            TakeRecord(r, at);
            assert lsnMapping == Place(MappingAfter(m0, rs[..j2]), r, at);
            assert lsnMapping == MappingAfter(m0, rs[..j2 + 1]);
            inner := inner + size;
            j2 := j2 + 1;
          }
        }
      }
    }

    /**
     * The walk of redo over the log file rs, read in chunks of `capacity`
     * bytes (read_log returns the bytes left, up to a buffer); each chunk
     * resumes where the records taken from the previous one end. Returns
     * the largest lsn seen.
     */
    method RedoWalk(rs: seq<LogRecord>, capacity: nat) returns (maxLsn: int)
      requires Walkable(rs, sizeFieldEnd, capacity)
      modifies this`activeTxn, this`lsnMapping, this`store
      ensures activeTxn == ActiveAfter(old(activeTxn), rs)
      ensures lsnMapping == MappingAfter(old(lsnMapping), rs)
      ensures store == RedoAll(old(store), rs)
      ensures maxLsn == MaxLsn(INVALID_LSN, rs)
    {
      var fileSize: int := TotLen(rs);
      var offset: nat := 0;
      var j: nat := 0;
      maxLsn := INVALID_LSN;
      while offset < fileSize
        invariant j <= |rs| && offset == TotLen(rs[..j])
        invariant activeTxn == ActiveAfter(old(activeTxn), rs[..j])
        invariant lsnMapping == MappingAfter(old(lsnMapping), rs[..j])
        invariant store == RedoAll(old(store), rs[..j])
        invariant maxLsn == MaxLsn(INVALID_LSN, rs[..j])
        decreases fileSize - offset
      {
        TotLenPrefix(rs, j);
        var readBytes := if capacity < fileSize - offset then capacity else fileSize - offset;
        var inner;
        inner, j, maxLsn := RedoChunk(rs, capacity, offset, readBytes, j, maxLsn, old(activeTxn), old(lsnMapping), old(store));
        offset := offset + inner;
      }
      TotLenPrefix(rs, j);
      assert rs[..j] == rs;
    }

    /**
     * redo: the walk over the log file, after which persist_lsn_ is the
     * largest lsn in the log and global_lsn_ the one after it.
     */
    method Redo()
      requires log.Valid() && log.logBuffer == [] && Walkable(log.disk, sizeFieldEnd, log.capacity)
      modifies this`activeTxn, this`lsnMapping, this`store, log`persistLsn, log`globalLsn
      ensures log.Valid() && log.disk == old(log.disk)
      ensures activeTxn == ActiveAfter(old(activeTxn), log.disk)
      ensures lsnMapping == MappingAfter(old(lsnMapping), log.disk)
      ensures store == RedoAll(old(store), log.disk)
      ensures log.persistLsn == MaxLsn(INVALID_LSN, log.disk) && log.globalLsn == log.persistLsn + 1
    {
      var maxLsn := RedoWalk(log.disk, log.capacity);
      log.SetLsns(maxLsn);
    }
    /**
     * UndoLog: a data record of an open table gets a compensation record
     * appended to the log (pointing back at the transaction's last lsn),
     * is undone on its table with the page's lsn set to the record's own,
     * and the transaction's last lsn becomes the compensation's. A begin
     * record, or any other, changes nothing.
     */
    method UndoLog(r: LogRecord) returns (clrLsn: int)
      requires log.Valid() && 0 < r.totLen <= log.capacity
      modifies this`activeTxn, this`store
      modifies log`logBuffer, log`offset, log`flushBuffer, log`flushOffset, log`disk, log`persistLsn, log`needFlush, log`globalLsn
      ensures log.Valid() && old(log.disk) <= log.disk
      ensures store == UndoData(old(store), r)
      ensures !(IsData(r) && r.table in old(store).files) ==>
        activeTxn == old(activeTxn) && log.disk == old(log.disk) && log.logBuffer == old(log.logBuffer)
        && log.globalLsn == old(log.globalLsn)
      ensures IsData(r) && r.table in old(store).files ==>
        clrLsn == old(log.globalLsn) && log.globalLsn == clrLsn + 1 && activeTxn == old(activeTxn)[r.txnId := clrLsn]
        && log.disk + log.logBuffer == old(log.disk + log.logBuffer) + [Compensation(r, LastLsn(old(activeTxn), r.txnId)).(lsn := clrLsn)]
    {
      clrLsn := INVALID_LSN;
      if IsData(r) && r.table in store.files {
        var clr := Compensation(r, LastLsn(activeTxn, r.txnId));
        clrLsn := log.AddLogToBuffer(clr);
        UndoOnTable(r);
        activeTxn := activeTxn[r.txnId := clrLsn];
      }
    }

    /**
     * The table operation of UndoLog: an insert is undone by deleting the
     * record, a delete by inserting its image back, an update by writing
     * the old image; the page's lsn becomes the record's.
     */
    method UndoOnTable(r: LogRecord)
      requires IsData(r) && r.table in store.files
      modifies this`store
      ensures store == UndoData(old(store), r)
    {
      var f := store.files[r.table];
      if r.kind == InsertLog {
        f := f - {r.rid};
      } else if r.kind == DeleteLog {
        f := f[r.rid := r.value];
      } else {
        f := f[r.rid := r.oldValue];
      }
      store := Store(store.files[r.table := f], store.pageLsn[PageKey(r.table, r.rid.pageNo) := r.lsn]);
    }

    /**
     * One record undone: read from the log file at the offset the mapping
     * gives for lsn (the file has only grown since the mapping was built),
     * then undone by UndoLog.
     */
    method UndoAt(lsn: int, ghost disk0: seq<LogRecord>, ghost recs: map<int, LogRecord>) returns (rec: LogRecord)
      requires log.Valid() && MappingSound(lsnMapping, disk0) && recs == Records(lsnMapping, disk0)
      requires disk0 <= log.disk && lsn in lsnMapping && 0 < recs[lsn].totLen <= log.capacity
      requires recs[lsn].txnId in activeTxn
      modifies this`activeTxn, this`store
      modifies log`logBuffer, log`offset, log`flushBuffer, log`flushOffset, log`disk, log`persistLsn, log`needFlush, log`globalLsn
      ensures rec == recs[lsn] && store == UndoData(old(store), rec)
      ensures log.Valid() && old(log.disk) <= log.disk && old(log.disk + log.logBuffer) <= log.disk + log.logBuffer
      ensures activeTxn.Keys == old(activeTxn).Keys
      ensures var t := TrailStep(([], old(activeTxn)), rec, old(store).files.Keys, old(log.globalLsn));
        log.disk + log.logBuffer == old(log.disk + log.logBuffer) + t.0 && activeTxn == t.1
        && log.globalLsn == old(log.globalLsn) + |t.0|
    {
      var (off, size) := lsnMapping[lsn];
      RecordAtExtend(disk0, log.disk[|disk0|..], off);
      assert disk0 + log.disk[|disk0|..] == log.disk;
      rec := RecordAt(log.disk, off).value;
      var _ := UndoLog(rec);
      assert old(log.disk + log.logBuffer) + [] == old(log.disk + log.logBuffer);
    }

    /**
     * The state of the undo loop: the log file has only grown since it
     * started (from file disk0), the records recs are those the mapping
     * locates in disk0, and the rest is as UndoState says for the store,
     * the last lsns, the whole log and the next lsn.
     */
    ghost predicate Undoing(disk0: seq<LogRecord>, all0: seq<LogRecord>, recs: map<int, LogRecord>, seeds: set<int>,
                            keys: set<int>, store0: Store, active0: map<int, int>, g0: int, next: seq<int>, undone: seq<int>)
      reads this, log
    {
      && log.Valid() && disk0 <= log.disk
      && MappingSound(lsnMapping, disk0) && recs == Records(lsnMapping, disk0)
      && UndoState(recs, log.capacity, seeds, keys, store0, active0, g0, all0, next, undone,
                   store, activeTxn, log.disk + log.logBuffer, log.globalLsn)
    }

    /**
     * One round of undo: the largest lsn of the worklist is taken off, its
     * record undone and its prev_lsn (unless INVALID_LSN) put on; the
     * worklist's largest lsn drops.
     */
    method UndoRound(next: seq<int>, ghost undone: seq<int>, ghost disk0: seq<LogRecord>, ghost all0: seq<LogRecord>,
                     ghost recs: map<int, LogRecord>, ghost seeds: set<int>, ghost keys: set<int>, ghost store0: Store,
                     ghost active0: map<int, int>, ghost g0: int)
      returns (next2: seq<int>)
      requires next != [] && Undoing(disk0, all0, recs, seeds, keys, store0, active0, g0, next, undone)
      modifies this`activeTxn, this`store
      modifies log`logBuffer, log`offset, log`flushBuffer, log`flushOffset, log`disk, log`persistLsn, log`needFlush, log`globalLsn
      ensures Undoing(disk0, all0, recs, seeds, keys, store0, active0, g0, next2, undone + [next[|next| - 1]])
      ensures 0 <= next[|next| - 1] && (next2 != [] ==> 0 <= next2[|next2| - 1] < next[|next| - 1])
    {
      var lsn := next[|next| - 1];
      ghost var st, act, all, gl := store, activeTxn, log.disk + log.logBuffer, log.globalLsn;
      UndoStateFacts(recs, log.capacity, seeds, keys, store0, active0, g0, all0, next, undone, st, act, all, gl);
      var rec := UndoAt(lsn, disk0, recs);
      next2 := NextWorkSeq(next, rec.prevLsn);
      UndoStateStep(recs, log.capacity, seeds, keys, store0, active0, g0, all0, next, undone, st, act, all, gl,
                    store, activeTxn, log.disk + log.logBuffer, log.globalLsn);
    }

    /**
     * The undo worklist: repeatedly the largest lsn is taken, its record
     * undone, and its prev_lsn (unless INVALID_LSN) put on the worklist.
     * The lsns undone strictly decrease, and they are exactly the chains of
     * the worklist.
     */
    method UndoChains(next0: seq<int>, ghost recs: map<int, LogRecord>) returns (ghost undone: seq<int>)
      requires log.Valid() && Linked(lsnMapping, log.disk, log.capacity) && recs == Records(lsnMapping, log.disk)
      requires Sorted(next0) && Elems(next0) <= recs.Keys && forall w :: w in next0 ==> recs[w].txnId in activeTxn
      modifies this`activeTxn, this`store
      modifies log`logBuffer, log`offset, log`flushBuffer, log`flushOffset, log`disk, log`persistLsn, log`needFlush, log`globalLsn
      ensures log.Valid() && old(log.disk + log.logBuffer) <= log.disk + log.logBuffer
      ensures Decreasing(undone)
      ensures forall i :: 0 <= i < |undone| ==> undone[i] in recs
      ensures Elems(undone) == ChainsOf(recs, log.capacity, Elems(next0))
      ensures store == UndoAllData(old(store), recs, undone)
      ensures activeTxn.Keys == old(activeTxn).Keys
      ensures var t := UndoTrail(recs, undone, old(store).files.Keys, old(activeTxn), old(log.globalLsn));
        log.disk + log.logBuffer == old(log.disk + log.logBuffer) + t.0 && activeTxn == t.1
    {
      ghost var disk0 := log.disk;
      ghost var all0 := log.disk + log.logBuffer;
      ghost var keys := activeTxn.Keys;
      ghost var seeds := Elems(next0);
      var next := next0;
      undone := [];
      WorkStart(recs, log.capacity, seeds);
      assert all0 + [] == all0;
      while next != []
        invariant Undoing(disk0, all0, recs, seeds, keys, old(store), old(activeTxn), old(log.globalLsn), next, undone)
        decreases if next == [] then 0 else next[|next| - 1] + 1
      {
        ghost var lsn := next[|next| - 1];
        next := UndoRound(next, undone, disk0, all0, recs, seeds, keys, old(store), old(activeTxn), old(log.globalLsn));
        undone := undone + [lsn];
      }
      assert ChainsOf(recs, log.capacity, Elems(next)) == {};
    }

    /** The abort record undo appends for each transaction, in the order given, after the undo. */
    method AppendAborts(order: seq<int>)
      requires log.Valid() && 0 < headerLen <= log.capacity && forall t :: t in order ==> t in activeTxn
      modifies log`logBuffer, log`offset, log`flushBuffer, log`flushOffset, log`disk, log`persistLsn, log`needFlush, log`globalLsn
      ensures log.Valid() && old(log.disk + log.logBuffer) <= log.disk + log.logBuffer
      ensures |log.disk + log.logBuffer| == |old(log.disk + log.logBuffer)| + |order|
      ensures AbortsAt(log.disk + log.logBuffer, |old(log.disk + log.logBuffer)|, order, activeTxn, headerLen)
    {
      ghost var all0 := log.disk + log.logBuffer;
      var k := 0;
      while k < |order|
        invariant 0 <= k <= |order| && log.Valid() && log.globalLsn == old(log.globalLsn) + k
        invariant |log.disk + log.logBuffer| == |all0| + k && all0 <= log.disk + log.logBuffer
        invariant forall i :: 0 <= i < k ==>
          (log.disk + log.logBuffer)[|all0| + i] == AbortRecord(order[i], activeTxn[order[i]], headerLen).(lsn := old(log.globalLsn) + i)
      {
        var _ := log.AddLogToBuffer(AbortRecord(order[k], activeTxn[order[k]], headerLen));
        k := k + 1;
      }
      forall i | 0 <= i < |order| ensures order[i] in activeTxn {
        assert order[i] in order;
      }
    }

    /**
     * undo: the worklist is seeded with the last lsn of each active
     * transaction (listed in `order`, the order active_txn_ is iterated
     * in), the chains are undone, and an abort record is appended for each
     * active transaction, pointing back at its last lsn.
     */
    method Undo(order: seq<int>) returns (ghost undone: seq<int>)
      requires log.Valid() && Linked(lsnMapping, log.disk, log.capacity) && 0 < headerLen <= log.capacity
      requires forall t :: t in order <==> t in activeTxn
      requires forall t :: t in activeTxn ==>
        activeTxn[t] in lsnMapping && Records(lsnMapping, log.disk)[activeTxn[t]].txnId == t
      modifies this`activeTxn, this`store
      modifies log`logBuffer, log`offset, log`flushBuffer, log`flushOffset, log`disk, log`persistLsn, log`needFlush, log`globalLsn
      ensures log.Valid() && old(log.disk + log.logBuffer) <= log.disk + log.logBuffer
      ensures Decreasing(undone)
      ensures forall i :: 0 <= i < |undone| ==> undone[i] in lsnMapping
      ensures Elems(undone) == ChainsOf(Records(lsnMapping, old(log.disk)), log.capacity, ActiveLsns(old(activeTxn)))
      ensures store == UndoAllData(old(store), Records(lsnMapping, old(log.disk)), undone)
      ensures activeTxn.Keys == old(activeTxn).Keys
      ensures var t := UndoTrail(Records(lsnMapping, old(log.disk)), undone, old(store).files.Keys, old(activeTxn), old(log.globalLsn));
        activeTxn == t.1 && UndoneLog(log.disk + log.logBuffer, old(log.disk + log.logBuffer), t.0, order, activeTxn, headerLen)
    {
      ghost var clrs;
      undone, clrs := UndoSeeded(order);
      ghost var mid := log.disk + log.logBuffer;
      AppendAborts(order);
      GrownBy(old(log.disk + log.logBuffer), clrs, mid, log.disk + log.logBuffer, order, activeTxn, headerLen);
    }

    /**
     * The first part of undo: the worklist seeded with the last lsn of
     * each active transaction, and the chains undone.
     */
    method UndoSeeded(order: seq<int>) returns (ghost undone: seq<int>, ghost clrs: seq<LogRecord>)
      requires log.Valid() && Linked(lsnMapping, log.disk, log.capacity)
      requires forall t :: t in order <==> t in activeTxn
      requires forall t :: t in activeTxn ==>
        activeTxn[t] in lsnMapping && Records(lsnMapping, log.disk)[activeTxn[t]].txnId == t
      modifies this`activeTxn, this`store
      modifies log`logBuffer, log`offset, log`flushBuffer, log`flushOffset, log`disk, log`persistLsn, log`needFlush, log`globalLsn
      ensures log.Valid()
      ensures Decreasing(undone)
      ensures forall i :: 0 <= i < |undone| ==> undone[i] in lsnMapping
      ensures Elems(undone) == ChainsOf(Records(lsnMapping, old(log.disk)), log.capacity, ActiveLsns(old(activeTxn)))
      ensures store == UndoAllData(old(store), Records(lsnMapping, old(log.disk)), undone)
      ensures activeTxn.Keys == old(activeTxn).Keys
      ensures var t := UndoTrail(Records(lsnMapping, old(log.disk)), undone, old(store).files.Keys, old(activeTxn), old(log.globalLsn));
        clrs == t.0 && activeTxn == t.1
      ensures log.disk + log.logBuffer == old(log.disk + log.logBuffer) + clrs
    {
      ghost var recs := Records(lsnMapping, log.disk);
      var next := Seed(activeTxn, order);
      SeedsKnown(activeTxn, recs, next);
      undone := UndoChains(next, recs);
      clrs := UndoTrail(recs, undone, old(store).files.Keys, old(activeTxn), old(log.globalLsn)).0;
    }
  }
}
