// The sequential scan (src/execution/executor_seq_scan.h): a shared lock on
// the table, then a walk over the table's records in file order that stops
// at every record satisfying all the conditions. The records are given in
// the order the record-file scan visits their slots (see RecordScan); the
// scan's cursor is the position of its current record in that order.
module SeqScan {
  import opened Wrappers
  import opened Errors
  import opened Values
  import opened Catalog
  import opened Conditions
  import opened Txn
  import opened Locking

  /**
   * Where a scan loop starting at `from` stops: the first position at or
   * after it whose record satisfies every condition, |recs| when none does.
   */
  function FirstMatch(conds: seq<Condition>, lhsCols: seq<ColMeta>, recs: seq<seq<byte>>, from: nat): (p: nat)
    requires Evaluates(conds, lhsCols, recs) && from <= |recs|
    ensures from <= p <= |recs|
    ensures p < |recs| ==> AllHold(conds, lhsCols, recs[p])
    ensures forall k :: from <= k < p ==> !AllHold(conds, lhsCols, recs[k])
    decreases |recs| - from
  {
    if from == |recs| then from
    else if AllHold(conds, lhsCols, recs[from]) then from
    else FirstMatch(conds, lhsCols, recs, from + 1)
  }

  /** The records that satisfy every condition, in their order. */
  function Filter(conds: seq<Condition>, lhsCols: seq<ColMeta>, recs: seq<seq<byte>>): seq<seq<byte>>
    requires Evaluates(conds, lhsCols, recs)
    decreases |recs|
  {
    if recs == [] then []
    else
      var rest := Filter(conds, lhsCols, recs[1..]);
      if AllHold(conds, lhsCols, recs[0]) then [recs[0]] + rest else rest
  }

  /**
   * The stops of the scan are exactly the matching records: from any
   * position, the records that match are the one the scan stops at
   * followed by those matching after it, and none when it runs to the end.
   */
  lemma {:induction false} ScanStopsAreFilter(conds: seq<Condition>, lhsCols: seq<ColMeta>, recs: seq<seq<byte>>, from: nat)
    requires Evaluates(conds, lhsCols, recs) && from <= |recs|
    ensures var p := FirstMatch(conds, lhsCols, recs, from);
      Filter(conds, lhsCols, recs[from..]) ==
        if p == |recs| then [] else [recs[p]] + Filter(conds, lhsCols, recs[p + 1..])
    decreases |recs| - from
  {
    if from < |recs| {
      assert recs[from..][1..] == recs[from + 1..];
      if !AllHold(conds, lhsCols, recs[from]) {
        ScanStopsAreFilter(conds, lhsCols, recs, from + 1);
      }
    }
  }

  class SeqScanExecutor {
    /** The table file's descriptor, which names its table lock. */
    const fd: int
    const cols: seq<ColMeta>
    /** len_: the last column's offset plus its length. */
    const len: nat
    const conds: seq<Condition>
    /** lhs_cols_meta: the column each condition's left side names. */
    const lhsCols: seq<ColMeta>
    /** The table's records in scan order. */
    const records: seq<seq<byte>>
    /** The scan's current record; |records| once it is at the end. */
    var pos: nat

    /** The cursor is at the end or at a record every condition holds for. */
    ghost predicate Valid()
      reads this
    {
      && Evaluates(conds, lhsCols, records)
      && pos <= |records|
      && (pos < |records| ==> AllHold(conds, lhsCols, records[pos]))
    }

    /**
     * The constructor: the table's columns, the record length, and the
     * column of each condition (ColumnNotFoundError is left to LhsCols).
     */
    constructor(tab: TabMeta, fd: int, conds: seq<Condition>, records: seq<seq<byte>>)
      requires |tab.cols| > 0 && LhsCols(tab.cols, conds).Ok?
      requires Evaluates(conds, LhsCols(tab.cols, conds).value, records)
      ensures Valid() && this.fd == fd && this.conds == conds && this.records == records && pos == |records|
      ensures cols == tab.cols && lhsCols == LhsCols(tab.cols, conds).value
      ensures len == tab.cols[|tab.cols| - 1].offset + tab.cols[|tab.cols| - 1].len
    {
      this.fd := fd;
      this.conds := conds;
      this.records := records;
      cols := tab.cols;
      len := tab.cols[|tab.cols| - 1].offset + tab.cols[|tab.cols| - 1].len;
      lhsCols := LhsCols(tab.cols, conds).value;
      pos := |records|;
    }

    predicate IsEnd()
      reads this
    {
      pos == |records|
    }

    /** Next: a copy of the current record, which satisfies every condition. */
    function Next(): (rec: seq<byte>)
      reads this
      requires Valid() && pos < |records|
      ensures rec == records[pos] && AllHold(conds, lhsCols, rec)
    {
      records[pos]
    }

    /**
     * The loop `for (; !is_end() && !check_cond(); scan_->next())`: the
     * cursor moves past every record some condition fails for.
     */
    method SkipFailing()
      requires Evaluates(conds, lhsCols, records) && pos <= |records|
      modifies this`pos
      ensures Valid() && pos == FirstMatch(conds, lhsCols, records, old(pos))
    {
      ghost var start := pos;
      while pos < |records|
        invariant start <= pos <= |records|
        invariant FirstMatch(conds, lhsCols, records, pos) == FirstMatch(conds, lhsCols, records, start)
        decreases |records| - pos
      {
        var ok := CheckCond(conds, lhsCols, records[pos]);
        if ok {
          break;
        }
        pos := pos + 1;
      }
    }

    /**
     * beginTuple: a shared lock on the table (a refused lock aborts the
     * transaction's statement and the scan does not start), then the scan
     * from the first record to the first one that matches.
     */
    method BeginTuple(lm: LockManager, txn: Transaction) returns (r: Result<(), AbortReason>)
      requires Valid() && lm.Valid()
      modifies this`pos, lm, txn
      ensures Valid() && lm.Valid()
      ensures r.Ok? ==> TableId(fd) in lm.lockTable && Holds(lm.lockTable[TableId(fd)].requests, txn.id, Shared)
      ensures r.Ok? ==> pos == FirstMatch(conds, lhsCols, records, 0)
      ensures r.Err? ==> pos == old(pos) && r.error in {LockOnShrinking, UpgradeConflict, DeadlockPrevention}
    {
      var l := lm.Lock(txn, TableId(fd), Shared);
      if l.Err? {
        return Err(l.error);
      }
      pos := 0;
      SkipFailing();
      return Ok(());
    }

    /** nextTuple: step past the current record, then on to the next one that matches. */
    method NextTuple()
      requires Valid() && pos < |records|
      modifies this`pos
      ensures Valid() && pos == FirstMatch(conds, lhsCols, records, old(pos) + 1)
    {
      pos := pos + 1;
      SkipFailing();
    }
  }
}
