// The block nested-loop join (src/execution/executor_nestedloop_join.h).
// Each child's tuples are written, a page-sized block at a time, to a
// temporary file (JoinBlock); the join then walks the left file block by
// block and, for each left block, the right file block by block, pairing
// every left tuple of the block with every right tuple of the other block.
// The children are given as the sequences of tuples their scans produce;
// whether fopen succeeds is a parameter.
module NestedLoopJoin {
  import opened Wrappers
  import opened Values
  import opened Catalog
  import opened ExecManager
  import opened Conditions
  import opened Txn
  import Disk

  function Min(a: nat, b: nat): nat
  {
    if a <= b then a else b
  }

  lemma MulMonotone(a: nat, b: nat, c: nat)
    requires a <= b
    ensures a * c <= b * c
  {
  }

  /**
   * insert_tup's flush test, curr_pos + record_len > data + block_size with
   * n records in the buffer after the insert, holds exactly when the buffer
   * holds records_per_block = block_size / record_len records.
   */
  lemma FullBlock(n: nat, recordLen: nat, blockSize: nat)
    requires 0 < recordLen <= blockSize && n <= blockSize / recordLen
    ensures (n + 1) * recordLen > blockSize <==> n == blockSize / recordLen
  {
    var p := blockSize / recordLen;
    var q := blockSize % recordLen;
    assert blockSize == p * recordLen + q && 0 <= q < recordLen;
    if n < p {
      MulMonotone(n + 1, p, recordLen);
      assert (n + 1) * recordLen <= blockSize;
    } else {
      MulSucc(p, recordLen);
      assert (n + 1) * recordLen > blockSize;
    }
  }

  lemma MulSucc(a: nat, c: nat)
    ensures (a + 1) * c == a * c + c
  {
  }

  /**
   * A join buffer and its temporary file. The file holds whole records.
   * While the block is being filled, the buffer holds the records not yet
   * written; while it is being read, it holds the file's records from
   * `start` up to the read position. curr_pos is kept as a record index
   * into the buffer.
   */
  class JoinBlock {
    const recordLen: nat
    /** block_size: PAGE_SIZE. */
    const blockSize: nat
    /** records_per_block: block_size / record_len. */
    const perBlock: nat
    /** The temporary file's records, in the order they were written. */
    var file: seq<seq<byte>>
    /** fp's read position, in records. */
    var readPos: nat
    /** The records buffered and not yet written, while filling. */
    var block: seq<seq<byte>>
    /** The file position of the buffer's first record, while reading. */
    var start: nat
    var tupInBlock: nat
    /** curr_pos, in records from the buffer's head. */
    var cur: nat
    var tupTotal: nat

    ghost predicate Valid()
      reads this`tupInBlock, this`cur, this`readPos, this`file
    {
      && 0 < recordLen <= blockSize
      && perBlock == blockSize / recordLen
      && 0 < perBlock
      && tupInBlock <= perBlock
      && cur <= tupInBlock
      && readPos <= |file|
    }

    /** Being filled: curr_pos at the end of a buffer that is not full, every record counted. */
    ghost predicate Filling()
      reads this
    {
      Valid() && cur == tupInBlock == |block| < perBlock && tupTotal == |file| + |block|
      && (forall k :: 0 <= k < |file| ==> |file[k]| == recordLen)
      && (forall k :: 0 <= k < |block| ==> |block[k]| == recordLen)
    }

    /** Being read: the buffer holds the tup_in_block records just before the file's read position. */
    ghost predicate Reading()
      reads this
    {
      Valid() && start + tupInBlock == readPos
    }

    /** A buffer and file with nothing in them yet. */
    ghost predicate Empty()
      reads this
    {
      Filling() && file == [] && block == [] && tupTotal == 0
    }

    /** The constructor once fopen has succeeded: the file is created empty ("w+"). */
    constructor(recordLen: nat)
      requires 0 < recordLen <= Disk.PAGE_SIZE
      ensures Empty() && this.recordLen == recordLen && blockSize == Disk.PAGE_SIZE
    {
      this.recordLen := recordLen;
      blockSize := Disk.PAGE_SIZE;
      perBlock := Disk.PAGE_SIZE / recordLen;
      file := [];
      readPos := 0;
      block := [];
      start := 0;
      tupInBlock := 0;
      cur := 0;
      tupTotal := 0;
    }

    /**
     * insert_tup: the record goes into the buffer and is counted; once a
     * further record would not fit, the full buffer is written to the file
     * and emptied. The records written and buffered grow by the record.
     */
    method InsertTup(t: seq<byte>)
      requires Filling() && |t| == recordLen
      modifies this
      ensures Filling() && tupTotal == old(tupTotal) + 1
      ensures file + block == old(file + block) + [t]
      ensures |old(block)| + 1 == perBlock ==> file == old(file + block) + [t] && block == []
      ensures |old(block)| + 1 < perBlock ==> file == old(file) && block == old(block) + [t]
      ensures readPos == old(readPos) && start == old(start)
    {
      block := block + [t];
      cur := cur + 1;
      tupTotal := tupTotal + 1;
      tupInBlock := tupInBlock + 1;
      FullBlock(cur, recordLen, blockSize);
      if (cur + 1) * recordLen > blockSize {
        file := file + block;
        cur := 0;
        tupInBlock := 0;
        block := [];
      }
    }

    /** reset_to_block_head: the next read is the buffer's first record again. */
    method ResetToBlockHead()
      requires Reading()
      modifies this`cur
      ensures Reading() && cur == 0
    {
      cur := 0;
    }

    /** reset_to_file_head: rewind, then read the file's first block. */
    method ResetToFileHead()
      requires Valid()
      modifies this`readPos, this`start, this`tupInBlock, this`cur
      ensures Reading() && start == 0 && readPos == tupInBlock == Min(perBlock, |file|) && cur == 0
    {
      readPos := 0;
      var n := Min(perBlock, |file| - readPos);
      start := readPos;
      readPos := readPos + n;
      tupInBlock := n;
      cur := 0;
    }

    /**
     * start_read: the buffered records are written after the full blocks,
     * then the file is read from its first block.
     */
    method StartRead()
      requires Filling()
      modifies this
      ensures Reading() && file == old(file + block) && tupTotal == old(tupTotal) == |file|
      ensures start == 0 && readPos == tupInBlock == Min(perBlock, |file|) && cur == 0
      ensures forall k :: 0 <= k < |file| ==> |file[k]| == recordLen
    {
      file := file + block;
      tupInBlock := |block|;
      ResetToFileHead();
    }

    /**
     * read_next_block: the next (at most records_per_block) records from the
     * read position; none at the end of the file.
     */
    method ReadNextBlock() returns (n: nat)
      requires Reading()
      modifies this`readPos, this`start, this`tupInBlock, this`cur
      ensures Reading() && n == tupInBlock == Min(perBlock, |file| - old(readPos))
      ensures start == old(readPos) && readPos == old(readPos) + n && cur == 0
      ensures n == 0 <==> old(readPos) == |file|
    {
      n := Min(perBlock, |file| - readPos);
      start := readPos;
      readPos := readPos + n;
      tupInBlock := n;
      cur := 0;
    }

    /**
     * read_tup: nothing once tup_in_block records have been read, otherwise
     * the buffer's next record, the file's record at start + curr_pos.
     */
    method ReadTup() returns (t: Option<seq<byte>>)
      requires Reading()
      modifies this`cur
      ensures Reading()
      ensures old(cur) < tupInBlock ==> t == Some(file[start + old(cur)]) && cur == old(cur) + 1
      ensures old(cur) == tupInBlock ==> t == None && cur == old(cur)
    {
      if cur >= tupInBlock {
        return None;
      }
      t := Some(file[start + cur]);
      cur := cur + 1;
    }
  }

  /**
   * A JoinBlock's constructor: when the temporary file cannot be opened the
   * transaction is set ABORTED and NESTLOOPJOIN_FILE_FAILURE is raised.
   */
  method OpenBlock(recordLen: nat, canOpen: bool, txn: Transaction) returns (r: Result<JoinBlock, AbortReason>)
    requires 0 < recordLen <= Disk.PAGE_SIZE
    modifies txn`state
    ensures canOpen ==> r.Ok? && fresh(r.value) && r.value.Empty() && r.value.recordLen == recordLen && txn.state == old(txn.state)
    ensures !canOpen ==> r == Err(NestloopjoinFileFailure) && txn.state == Aborted
  {
    if !canOpen {
      txn.state := Aborted;
      return Err(NestloopjoinFileFailure);
    }
    var b := new JoinBlock(recordLen);
    return Ok(b);
  }

  /**
   * The loops of init_join that copy a child's tuples into its block:
   * afterwards the records written and buffered are the child's tuples,
   * each counted once.
   */
  method Load(b: JoinBlock, recs: seq<seq<byte>>)
    requires b.Empty()
    requires forall k :: 0 <= k < |recs| ==> |recs[k]| == b.recordLen
    modifies b
    ensures b.Filling() && b.file + b.block == recs && b.tupTotal == |recs|
  {
    var i := 0;
    while i < |recs|
      invariant 0 <= i <= |recs|
      invariant b.Filling() && b.file + b.block == recs[..i] && b.tupTotal == i
    {
      b.InsertTup(recs[i]);
      assert recs[..i + 1] == recs[..i] + [recs[i]];
      i := i + 1;
    }
    assert recs[..i] == recs;
  }

  /** A child's tuples written to its block and the file then read from its head. */
  method LoadForReading(b: JoinBlock, recs: seq<seq<byte>>)
    requires b.Empty()
    requires forall k :: 0 <= k < |recs| ==> |recs[k]| == b.recordLen
    modifies b
    ensures b.Reading() && b.file == recs && b.start == 0 && b.cur == 0
    ensures b.readPos == b.tupInBlock == Min(b.perBlock, |recs|)
  {
    Load(b, recs);
    b.StartRead();
  }

  /** The (table, column) name col_offset_map is keyed by. */
  datatype ColKey = ColKey(tab: string, col: string)

  function KeyOf(c: ColMeta): ColKey
  {
    ColKey(c.tabName, c.name)
  }

  function CondKey(t: TabCol): ColKey
  {
    ColKey(t.tabName, t.colName)
  }

  /** Column i is the first of `cols` with name k. */
  predicate FirstWith(cols: seq<ColMeta>, k: ColKey, i: int)
    requires 0 <= i < |cols|
  {
    KeyOf(cols[i]) == k && forall j :: 0 <= j < i ==> KeyOf(cols[j]) != k
  }

  /** The first column of `cols` named k, if any. */
  function Lookup(cols: seq<ColMeta>, k: ColKey): (r: Option<ColMeta>)
    ensures r.None? <==> forall i :: 0 <= i < |cols| ==> KeyOf(cols[i]) != k
    ensures r.Some? ==> exists i :: 0 <= i < |cols| && cols[i] == r.value && FirstWith(cols, k, i)
    decreases |cols|
  {
    if cols == [] then None
    else
      var n := |cols| - 1;
      var front := Lookup(cols[..n], k);
      assert forall i :: 0 <= i < n ==> cols[..n][i] == cols[i];
      if front.Some? then front
      else if KeyOf(cols[n]) == k then (assert FirstWith(cols, k, n); Some(cols[n]))
      else None
  }

  /** std::map::insert of each column in turn: a name already present keeps its column. */
  function InsertAll(m: map<ColKey, ColMeta>, cols: seq<ColMeta>): map<ColKey, ColMeta>
    decreases |cols|
  {
    if cols == [] then m
    else
      var n := |cols| - 1;
      var prev := InsertAll(m, cols[..n]);
      if KeyOf(cols[n]) in prev then prev else prev[KeyOf(cols[n]) := cols[n]]
  }

  /** After the inserts a name maps to its old column, or else to the first column with it. */
  lemma {:induction false} InsertAllKeeps(m: map<ColKey, ColMeta>, cols: seq<ColMeta>, k: ColKey)
    ensures k in InsertAll(m, cols) <==> k in m || Lookup(cols, k).Some?
    ensures k in InsertAll(m, cols) ==> InsertAll(m, cols)[k] == if k in m then m[k] else Lookup(cols, k).value
    decreases |cols|
  {
    if cols != [] {
      InsertAllKeeps(m, cols[..|cols| - 1], k);
    }
  }

  /** The first column of l + r named k is l's when l has one, else r's. */
  lemma {:induction false} LookupAppend(l: seq<ColMeta>, r: seq<ColMeta>, k: ColKey)
    ensures Lookup(l + r, k) == if Lookup(l, k).Some? then Lookup(l, k) else Lookup(r, k)
    decreases |r|
  {
    if r == [] {
      assert l + r == l;
    } else {
      var n := |r| - 1;
      assert (l + r)[..|l + r| - 1] == l + r[..n];
      LookupAppend(l, r[..n], k);
    }
  }

  /** col_offset_map: the left columns inserted, then the right ones. */
  function ColMap(leftCols: seq<ColMeta>, rightCols: seq<ColMeta>): map<ColKey, ColMeta>
  {
    InsertAll(InsertAll(map[], leftCols), rightCols)
  }

  /**
   * col_offset_map knows exactly the names of the two sides' columns, and
   * each maps to the first column with it, left before right.
   */
  lemma ColMapFirstWins(leftCols: seq<ColMeta>, rightCols: seq<ColMeta>, k: ColKey)
    ensures k in ColMap(leftCols, rightCols) <==> Lookup(leftCols + rightCols, k).Some?
    ensures k in ColMap(leftCols, rightCols) ==> ColMap(leftCols, rightCols)[k] == Lookup(leftCols + rightCols, k).value
  {
    InsertAllKeeps(map[], leftCols, k);
    InsertAllKeeps(InsertAll(map[], leftCols), rightCols, k);
    LookupAppend(leftCols, rightCols, k);
  }

  /** A loop of the constructor filling col_offset_map. */
  method InsertCols(m: map<ColKey, ColMeta>, cols: seq<ColMeta>) returns (r: map<ColKey, ColMeta>)
    ensures r == InsertAll(m, cols)
  {
    r := m;
    var i := 0;
    while i < |cols|
      invariant 0 <= i <= |cols| && r == InsertAll(m, cols[..i])
    {
      assert cols[..i + 1][..i] == cols[..i];
      if KeyOf(cols[i]) !in r {
        r := r[KeyOf(cols[i]) := cols[i]];
      }
      i := i + 1;
    }
    assert cols[..i] == cols;
  }

  /** A column moved `shift` bytes further into the tuple. */
  function Shifted(c: ColMeta, shift: nat): (d: ColMeta)
    ensures d.offset == c.offset + shift && d.len == c.len && d.colType == c.colType
    ensures d.tabName == c.tabName && d.name == c.name && d.index == c.index
  {
    c.(offset := c.offset + shift)
  }

  /** Each column moved `shift` bytes further into the tuple. */
  function ShiftCols(cols: seq<ColMeta>, shift: nat): (r: seq<ColMeta>)
    ensures |r| == |cols| && forall i :: 0 <= i < |cols| ==> r[i] == Shifted(cols[i], shift)
    decreases |cols|
  {
    if cols == [] then []
    else ShiftCols(cols[..|cols| - 1], shift) + [Shifted(cols[|cols| - 1], shift)]
  }

  /** The constructor's loop moving each right column past the left tuple. */
  method ShiftOffsets(cols: seq<ColMeta>, shift: nat) returns (r: seq<ColMeta>)
    ensures r == ShiftCols(cols, shift)
  {
    r := cols;
    var i := 0;
    while i < |r|
      invariant 0 <= i <= |r| == |cols|
      invariant forall j :: 0 <= j < i ==> r[j] == Shifted(cols[j], shift)
      invariant forall j :: i <= j < |r| ==> r[j] == cols[j]
    {
      r := r[i := Shifted(r[i], shift)];
      i := i + 1;
    }
  }

  /**
   * The output layout addresses the joined tuple: a left column reads its
   * bytes from the left tuple.
   */
  lemma JoinedLeftField(leftCols: seq<ColMeta>, rightCols: seq<ColMeta>, l: seq<byte>, r: seq<byte>, i: nat)
    requires i < |leftCols| && Fits(leftCols[i], l)
    ensures var c := (leftCols + ShiftCols(rightCols, |l|))[i];
      Fits(c, l + r) && FieldOf(c, l + r) == FieldOf(leftCols[i], l)
  {
    var c := leftCols[i];
    assert (leftCols + ShiftCols(rightCols, |l|))[i] == c;
    assert (l + r)[c.offset..c.offset + c.len] == l[c.offset..c.offset + c.len];
  }

  /**
   * The output layout addresses the joined tuple: a right column, moved
   * past the left tuple, reads the right column's bytes from the right tuple.
   */
  lemma JoinedRightField(leftCols: seq<ColMeta>, rightCols: seq<ColMeta>, l: seq<byte>, r: seq<byte>, i: nat)
    requires i < |rightCols| && Fits(rightCols[i], r)
    ensures var c := (leftCols + ShiftCols(rightCols, |l|))[|leftCols| + i];
      Fits(c, l + r) && FieldOf(c, l + r) == FieldOf(rightCols[i], r)
  {
    var shifted := ShiftCols(rightCols, |l|);
    assert (leftCols + shifted)[|leftCols| + i] == shifted[i];
    ShiftedField(rightCols[i], l, r);
  }

  /** A column moved past the left tuple reads the same bytes of the right tuple. */
  lemma ShiftedField(d: ColMeta, l: seq<byte>, r: seq<byte>)
    requires Fits(d, r)
    ensures Fits(Shifted(d, |l|), l + r) && FieldOf(Shifted(d, |l|), l + r) == FieldOf(d, r)
  {
    assert (l + r)[|l| + d.offset..|l| + d.offset + d.len] == r[d.offset..d.offset + d.len];
  }

  /** A condition init_join keeps: column against column, both names known. */
  predicate Kept(c: Condition, m: map<ColKey, ColMeta>)
  {
    !c.isRhsVal && CondKey(c.lhsCol) in m && CondKey(c.rhsCol) in m
  }

  /** The conditions init_join keeps, in their order. */
  function JoinConds(conds: seq<Condition>, m: map<ColKey, ColMeta>): (r: seq<Condition>)
    ensures forall c :: c in r <==> c in conds && Kept(c, m)
    ensures |r| <= |conds|
    decreases |conds|
  {
    if conds == [] then []
    else
      var n := |conds| - 1;
      assert conds == conds[..n] + [conds[n]];
      var front := JoinConds(conds[..n], m);
      if Kept(conds[n], m) then front + [conds[n]] else front
  }

  /** The filtering loop of init_join. */
  method FilterConds(conds: seq<Condition>, m: map<ColKey, ColMeta>) returns (r: seq<Condition>)
    ensures r == JoinConds(conds, m)
  {
    r := [];
    var i := 0;
    while i < |conds|
      invariant 0 <= i <= |conds| && r == JoinConds(conds[..i], m)
    {
      assert conds[..i + 1][..i] == conds[..i];
      if !conds[i].isRhsVal {
        if CondKey(conds[i].lhsCol) in m && CondKey(conds[i].rhsCol) in m {
          r := r + [conds[i]];
        }
      }
      i := i + 1;
    }
    assert conds[..i] == conds;
  }

  /**
   * A kept condition check_cond can evaluate on a left and a right tuple:
   * both columns of one type among INT, BIGINT and STRING, each inside its
   * tuple. The left column's bytes are read from the left tuple and the
   * right column's from the right one.
   */
  predicate JoinEvaluable(c: Condition, m: map<ColKey, ColMeta>, l: seq<byte>, r: seq<byte>)
  {
    && Kept(c, m)
    && var lm := m[CondKey(c.lhsCol)];
    && var rm := m[CondKey(c.rhsCol)];
    && lm.colType == rm.colType
    && lm.colType in {TypeInt, TypeBigint, TypeString}
    && Fits(lm, l) && Fits(rm, r)
  }

  /** One kept condition on a pair of tuples. */
  predicate JoinCondHolds(c: Condition, m: map<ColKey, ColMeta>, l: seq<byte>, r: seq<byte>)
    requires JoinEvaluable(c, m, l, r)
  {
    var lm := m[CondKey(c.lhsCol)];
    var rm := m[CondKey(c.rhsCol)];
    match lm.colType
    case TypeInt => CompareInt(ReadInt32(FieldOf(lm, l)), ReadInt32(FieldOf(rm, r)), c.op)
    case TypeBigint => CompareInt(ReadInt64(FieldOf(lm, l)), ReadInt64(FieldOf(rm, r)), c.op)
    case TypeString => CompareBytes(FieldOf(lm, l), FieldOf(rm, r), c.op)
    case TypeFloat => false
    case TypeDatetime => false
  }

  /** Every kept condition holds for the pair. */
  predicate JoinHolds(conds: seq<Condition>, m: map<ColKey, ColMeta>, l: seq<byte>, r: seq<byte>)
    requires forall i :: 0 <= i < |conds| ==> JoinEvaluable(conds[i], m, l, r)
  {
    forall i :: 0 <= i < |conds| ==> JoinCondHolds(conds[i], m, l, r)
  }

  /**
   * check_cond: the conjunction of the conditions, true when there are
   * none, false as soon as one of them fails for the pair.
   */
  method JoinCheckCond(conds: seq<Condition>, m: map<ColKey, ColMeta>, l: seq<byte>, r: seq<byte>) returns (res: bool)
    requires forall i :: 0 <= i < |conds| ==> JoinEvaluable(conds[i], m, l, r)
    ensures res == JoinHolds(conds, m, l, r)
    ensures conds == [] ==> res
    ensures !res ==> exists i :: 0 <= i < |conds| && !JoinCondHolds(conds[i], m, l, r)
  {
    res := true;
    var i := 0;
    while i < |conds|
      invariant 0 <= i <= |conds|
      invariant res <==> forall k :: 0 <= k < i ==> JoinCondHolds(conds[k], m, l, r)
    {
      res := res && JoinCondHolds(conds[i], m, l, r);
      i := i + 1;
    }
  }

  /** Every kept condition can be evaluated on every pair of the children's tuples. */
  predicate PairsEvaluate(conds: seq<Condition>, m: map<ColKey, ColMeta>, leftRecs: seq<seq<byte>>, rightRecs: seq<seq<byte>>)
  {
    forall i, a, b :: 0 <= i < |conds| && 0 <= a < |leftRecs| && 0 <= b < |rightRecs| && Kept(conds[i], m) ==>
      JoinEvaluable(conds[i], m, leftRecs[a], rightRecs[b])
  }

  /** What holds of the pairs for the conditions holds for those init_join keeps. */
  lemma PairsEvaluateKept(conds: seq<Condition>, m: map<ColKey, ColMeta>, leftRecs: seq<seq<byte>>, rightRecs: seq<seq<byte>>)
    requires PairsEvaluate(conds, m, leftRecs, rightRecs)
    ensures PairsEvaluate(JoinConds(conds, m), m, leftRecs, rightRecs)
  {
    var kept := JoinConds(conds, m);
    forall i, a, b | 0 <= i < |kept| && 0 <= a < |leftRecs| && 0 <= b < |rightRecs| && Kept(kept[i], m)
      ensures JoinEvaluable(kept[i], m, leftRecs[a], rightRecs[b])
    {
      assert kept[i] in kept;
      var j :| 0 <= j < |conds| && conds[j] == kept[i];
    }
  }

  /** The kept conditions can be evaluated on a pair of the children's tuples. */
  lemma PairsEvaluateAt(conds: seq<Condition>, m: map<ColKey, ColMeta>, leftRecs: seq<seq<byte>>, rightRecs: seq<seq<byte>>,
                        a: int, b: int, l: seq<byte>, r: seq<byte>)
    requires PairsEvaluate(conds, m, leftRecs, rightRecs) && forall c :: c in conds ==> Kept(c, m)
    requires 0 <= a < |leftRecs| && 0 <= b < |rightRecs| && l == leftRecs[a] && r == rightRecs[b]
    ensures forall i :: 0 <= i < |conds| ==> JoinEvaluable(conds[i], m, l, r)
  {
    forall i | 0 <= i < |conds|
      ensures JoinEvaluable(conds[i], m, l, r)
    {
      assert conds[i] in conds;
    }
  }

  /** Tuples of one length. */
  predicate Tuples(recs: seq<seq<byte>>, len: nat)
  {
    forall k :: 0 <= k < |recs| ==> |recs[k]| == len
  }

  // ---------------------------------------------------------------------
  // Pairs of a left and a right tuple, by position, and the first that matches.

  datatype Pair = Pair(l: nat, r: nat)

  /** The conditions can be evaluated on every pair of the tuples, and all of them are join conditions. */
  predicate Ready(conds: seq<Condition>, m: map<ColKey, ColMeta>, left: seq<seq<byte>>, right: seq<seq<byte>>)
  {
    PairsEvaluate(conds, m, left, right) && forall c :: c in conds ==> Kept(c, m)
  }

  /** Every pair lies inside the two relations. */
  predicate PairsIn(ps: seq<Pair>, nl: nat, nr: nat)
  {
    forall i :: 0 <= i < |ps| ==> ps[i].l < nl && ps[i].r < nr
  }

  /** check_cond on the pair's tuples. */
  predicate Matches(conds: seq<Condition>, m: map<ColKey, ColMeta>, left: seq<seq<byte>>, right: seq<seq<byte>>, p: Pair)
    requires Ready(conds, m, left, right) && p.l < |left| && p.r < |right|
  {
    PairsEvaluateAt(conds, m, left, right, p.l, p.r, left[p.l], right[p.r]);
    JoinHolds(conds, m, left[p.l], right[p.r])
  }

  /** Whether a pair matches is check_cond on its tuples. */
  lemma MatchesAt(conds: seq<Condition>, m: map<ColKey, ColMeta>, left: seq<seq<byte>>, right: seq<seq<byte>>, l: nat, r: nat)
    requires Ready(conds, m, left, right) && l < |left| && r < |right|
    ensures forall i :: 0 <= i < |conds| ==> JoinEvaluable(conds[i], m, left[l], right[r])
    ensures Matches(conds, m, left, right, Pair(l, r)) == JoinHolds(conds, m, left[l], right[r])
  {
    PairsEvaluateAt(conds, m, left, right, l, r, left[l], right[r]);
  }

  /** hits holds, of the pairs of a left and a right tuple, exactly those check_cond accepts. */
  ghost predicate HitsAre(hits: set<Pair>, conds: seq<Condition>, m: map<ColKey, ColMeta>, left: seq<seq<byte>>, right: seq<seq<byte>>)
    requires Ready(conds, m, left, right)
  {
    forall l: nat, r: nat {:trigger Matches(conds, m, left, right, Pair(l, r))} :: l < |left| && r < |right| ==>
      (Pair(l, r) in hits <==> Matches(conds, m, left, right, Pair(l, r)))
  }

  /** The pairs of a left and a right tuple that check_cond accepts. */
  ghost function Hits(conds: seq<Condition>, m: map<ColKey, ColMeta>, left: seq<seq<byte>>, right: seq<seq<byte>>): (hs: set<Pair>)
    requires Ready(conds, m, left, right)
    ensures forall p :: p in hs ==> p.l < |left| && p.r < |right|
    ensures HitsAre(hs, conds, m, left, right)
  {
    set l: nat, r: nat | l < |left| && r < |right| && Matches(conds, m, left, right, Pair(l, r)) :: Pair(l, r)
  }

  /** The outcome of probing a sequence of pairs: no pair was a hit, or the first that was and the pairs after it. */
  datatype Probed = Miss | Hit(pair: Pair, rest: seq<Pair>)

  /** The probe over ps, in order: the first pair in hits and what follows it, Miss when there is none. */
  function Scan(hits: set<Pair>, ps: seq<Pair>): (res: Probed)
    ensures res.Hit? ==> |res.rest| < |ps|
    decreases |ps|
  {
    if ps == [] then Miss
    else if ps[0] in hits then Hit(ps[0], ps[1..])
    else Scan(hits, ps[1..])
  }

  /**
   * Scan finds the first hit: Miss exactly when no pair of ps is in hits;
   * otherwise the pair found is in hits, no pair before it is, and `rest`
   * is what follows it in ps.
   */
  lemma {:induction false} ScanIsFirst(hits: set<Pair>, ps: seq<Pair>)
    ensures Scan(hits, ps).Miss? <==> forall i :: 0 <= i < |ps| ==> ps[i] !in hits
    ensures Scan(hits, ps).Hit? ==>
      var h := Scan(hits, ps);
      var k := |ps| - |h.rest| - 1;
      && ps[k] == h.pair && ps[k + 1..] == h.rest && h.pair in hits
      && forall i :: 0 <= i < k ==> ps[i] !in hits
    decreases |ps|
  {
    if ps != [] && ps[0] !in hits {
      var tail := ps[1..];
      ScanIsFirst(hits, tail);
      assert forall i :: 1 <= i < |ps| ==> ps[i] == tail[i - 1];
      var h := Scan(hits, ps);
      if h.Hit? {
        var k := |ps| - |h.rest| - 1;
        assert ps[k + 1..] == tail[k..];
      }
    }
  }

  /** Probing a + b: the hit in a, with b after it, or else the probe of b. */
  lemma {:induction false} ScanConcat(hits: set<Pair>, a: seq<Pair>, b: seq<Pair>)
    ensures Scan(hits, a + b) ==
      match Scan(hits, a)
      case Miss => Scan(hits, b)
      case Hit(p, rest) => Hit(p, rest + b)
    decreases |a|
  {
    if a != [] {
      assert (a + b)[0] == a[0] && (a + b)[1..] == a[1..] + b;
      ScanConcat(hits, a[1..], b);
    } else {
      assert a + b == b;
    }
  }

  /** Probing a pair and then more: a hit on that pair, or the probe of the rest. */
  lemma ScanCons(hits: set<Pair>, p: Pair, ps: seq<Pair>)
    ensures Scan(hits, [p] + ps) == if p in hits then Hit(p, ps) else Scan(hits, ps)
  {
    assert ([p] + ps)[0] == p && ([p] + ps)[1..] == ps;
  }

  // ---------------------------------------------------------------------
  // The order continue_block_join checks pairs in: block by block of the
  // left file, for each left block block by block of the right file, and
  // within two blocks left tuple by left tuple, right tuple by right tuple.

  /** Left tuple i against right tuples j0 .. j1 - 1. */
  function Row(i: nat, j0: nat, j1: nat): seq<Pair>
    decreases j1 - j0
  {
    if j0 >= j1 then [] else [Pair(i, j0)] + Row(i, j0 + 1, j1)
  }

  /** Left tuples i0 .. i1 - 1, each against right tuples j0 .. j1 - 1. */
  function Rows(i0: nat, i1: nat, j0: nat, j1: nat): seq<Pair>
    decreases i1 - i0
  {
    if i0 >= i1 then [] else Row(i0, j0, j1) + Rows(i0 + 1, i1, j0, j1)
  }

  /** The end of the block of at most p tuples that starts at b, among n. */
  function BlockEnd(b: nat, n: nat, p: nat): nat
  {
    if n <= b then b else b + Min(p, n - b)
  }

  /** Left tuples i0 .. i1 - 1 against each block of pr right tuples from b on, among nr. */
  function RightBlocks(i0: nat, i1: nat, b: nat, nr: nat, pr: nat): seq<Pair>
    requires 0 < pr
    decreases nr - b
  {
    if b >= nr then [] else Rows(i0, i1, b, BlockEnd(b, nr, pr)) + RightBlocks(i0, i1, BlockEnd(b, nr, pr), nr, pr)
  }

  /** Each block of pl left tuples from a on, among nl, against the whole right file. */
  function LeftBlocks(a: nat, nl: nat, pl: nat, nr: nat, pr: nat): seq<Pair>
    requires 0 < pl && 0 < pr
    decreases nl - a
  {
    if a >= nl then [] else RightBlocks(a, BlockEnd(a, nl, pl), 0, nr, pr) + LeftBlocks(BlockEnd(a, nl, pl), nl, pl, nr, pr)
  }

  /** A row holds exactly its left tuple against the right tuples in range. */
  lemma {:induction false} RowHas(i: nat, j0: nat, j1: nat, p: Pair)
    ensures p in Row(i, j0, j1) <==> p.l == i && j0 <= p.r < j1
    decreases j1 - j0
  {
    if j0 < j1 {
      RowHas(i, j0 + 1, j1, p);
    }
  }

  /** Rows hold exactly the pairs of the left and the right tuples in range. */
  lemma {:induction false} RowsHas(i0: nat, i1: nat, j0: nat, j1: nat, p: Pair)
    ensures p in Rows(i0, i1, j0, j1) <==> i0 <= p.l < i1 && j0 <= p.r < j1
    decreases i1 - i0
  {
    if i0 < i1 {
      RowHas(i0, j0, j1, p);
      RowsHas(i0 + 1, i1, j0, j1, p);
    }
  }

  /** The right blocks from b on hold every right tuple from b on. */
  lemma {:induction false} RightBlocksHas(i0: nat, i1: nat, b: nat, nr: nat, pr: nat, p: Pair)
    requires 0 < pr
    ensures p in RightBlocks(i0, i1, b, nr, pr) <==> i0 <= p.l < i1 && b <= p.r < nr
    decreases nr - b
  {
    if b < nr {
      RowsHas(i0, i1, b, BlockEnd(b, nr, pr), p);
      RightBlocksHas(i0, i1, BlockEnd(b, nr, pr), nr, pr, p);
    }
  }

  /** The left blocks from a on hold every left tuple from a on, each against every right tuple. */
  lemma {:induction false} LeftBlocksHas(a: nat, nl: nat, pl: nat, nr: nat, pr: nat, p: Pair)
    requires 0 < pl && 0 < pr
    ensures p in LeftBlocks(a, nl, pl, nr, pr) <==> a <= p.l < nl && p.r < nr
    decreases nl - a
  {
    if a < nl {
      RightBlocksHas(a, BlockEnd(a, nl, pl), 0, nr, pr, p);
      LeftBlocksHas(BlockEnd(a, nl, pl), nl, pl, nr, pr, p);
    }
  }

  /** With no right tuple in range there are no pairs. */
  lemma {:induction false} RowsNone(i0: nat, i1: nat, j0: nat, j1: nat)
    requires j1 <= j0
    ensures Rows(i0, i1, j0, j1) == []
    decreases i1 - i0
  {
    if i0 < i1 {
      RowsNone(i0 + 1, i1, j0, j1);
    }
  }

  /** With no left tuple in range there are no pairs. */
  lemma {:induction false} RightBlocksNone(i0: nat, i1: nat, b: nat, nr: nat, pr: nat)
    requires 0 < pr && i1 <= i0
    ensures RightBlocks(i0, i1, b, nr, pr) == []
    decreases nr - b
  {
    if b < nr {
      RightBlocksNone(i0, i1, BlockEnd(b, nr, pr), nr, pr);
    }
  }

  /**
   * The first left tuple of a block against the right block that starts
   * at b, then the block's other left tuples against it, then the block
   * against the right blocks after it: the block against the right file
   * from b on.
   */
  lemma BlockFrom(i0: nat, i1: nat, b: nat, nr: nat, pr: nat)
    requires 0 < pr && i0 < i1 && b <= nr
    ensures var e := BlockEnd(b, nr, pr);
      Row(i0, b, e) + Rows(i0 + 1, i1, b, e) + RightBlocks(i0, i1, e, nr, pr) == RightBlocks(i0, i1, b, nr, pr)
  {
    var e := BlockEnd(b, nr, pr);
    if b == nr {
      RowsNone(i0 + 1, i1, b, e);
    }
  }

  /**
   * Where the join stands: the left block holds left tuples ls .. lp - 1
   * and lc of them have been read, the last being left_tup when hasLeft;
   * the right block holds right tuples rs .. rp - 1 and rc have been read.
   */
  datatype Cursor = Cursor(ls: nat, lc: nat, lp: nat, hasLeft: bool, rs: nat, rc: nat, rp: nat)

  /** The pair of the last left and the last right tuple read. */
  function CurPair(c: Cursor): Pair
    requires 0 < c.lc && 0 < c.rc
  {
    Pair(c.ls + c.lc - 1, c.rs + c.rc - 1)
  }

  /** What is left of left_tup's pass over the right block. */
  function Ahead(c: Cursor): seq<Pair>
  {
    if c.hasLeft && 0 < c.lc then Row(c.ls + c.lc - 1, c.rs + c.rc, c.rp) else []
  }

  /** The pairs after left_tup's pass: the left block's unread tuples, then the later right and left blocks. */
  function Behind(c: Cursor, nl: nat, nr: nat, pl: nat, pr: nat): seq<Pair>
    requires 0 < pl && 0 < pr
  {
    Rows(c.ls + c.lc, c.lp, c.rs, c.rp) + RightBlocks(c.ls, c.lp, c.rp, nr, pr) + LeftBlocks(c.lp, nl, pl, nr, pr)
  }

  /** No pair of a left and a right tuple satisfies the join conditions. */
  ghost predicate NoMatch(conds: seq<Condition>, m: map<ColKey, ColMeta>, left: seq<seq<byte>>, right: seq<seq<byte>>)
    requires Ready(conds, m, left, right)
  {
    forall l: nat, r: nat :: l < |left| && r < |right| ==> !Matches(conds, m, left, right, Pair(l, r))
  }

  /** Probing every pair in block order finds nothing exactly when no pair of tuples matches. */
  lemma NoHitIffNoMatch(conds: seq<Condition>, m: map<ColKey, ColMeta>, left: seq<seq<byte>>, right: seq<seq<byte>>, pl: nat, pr: nat)
    requires Ready(conds, m, left, right) && 0 < pl && 0 < pr
    ensures Scan(Hits(conds, m, left, right), LeftBlocks(0, |left|, pl, |right|, pr)).Miss? <==> NoMatch(conds, m, left, right)
  {
    var hits := Hits(conds, m, left, right);
    FirstInOrder(hits, |left|, pl, |right|, pr);
    forall l: nat, r: nat | l < |left| && r < |right|
      ensures Pair(l, r) in hits <==> Matches(conds, m, left, right, Pair(l, r))
    {
      MatchesAt(conds, m, left, right, l, r);
    }
  }

  /**
   * The first hit in block order: there is none exactly when no pair of a
   * left and a right tuple is a hit.
   */
  lemma FirstInOrder(hits: set<Pair>, nl: nat, pl: nat, nr: nat, pr: nat)
    requires 0 < pl && 0 < pr
    ensures Scan(hits, LeftBlocks(0, nl, pl, nr, pr)).Miss? <==> forall l: nat, r: nat :: l < nl && r < nr ==> Pair(l, r) !in hits
  {
    var ps := LeftBlocks(0, nl, pl, nr, pr);
    ScanIsFirst(hits, ps);
    forall l: nat, r: nat | l < nl && r < nr
      ensures Pair(l, r) in ps
    {
      LeftBlocksHas(0, nl, pl, nr, pr, Pair(l, r));
    }
    forall k | 0 <= k < |ps|
      ensures ps[k].l < nl && ps[k].r < nr
    {
      LeftBlocksHas(0, nl, pl, nr, pr, ps[k]);
    }
  }

  /** The pairs still to be checked from c, in order, with nl left and nr right tuples in blocks of pl and pr. */
  function PendingAt(c: Cursor, nl: nat, nr: nat, pl: nat, pr: nat): seq<Pair>
    requires 0 < pl && 0 < pr
  {
    Ahead(c) + Behind(c, nl, nr, pl, pr)
  }

  /** Checking a row: its first pair is a hit, or the rest of the row is checked. */
  lemma RowScanStep(hits: set<Pair>, i: nat, j: nat, e: nat)
    requires j < e
    ensures Scan(hits, Row(i, j, e)) == if Pair(i, j) in hits then Hit(Pair(i, j), Row(i, j + 1, e)) else Scan(hits, Row(i, j + 1, e))
  {
    ScanCons(hits, Pair(i, j), Row(i, j + 1, e));
  }

  /** None of left tuple i's pairs with right tuples j0 .. j1 - 1 is a hit. */
  predicate NoneBetween(hits: set<Pair>, i: nat, j0: nat, j1: nat)
  {
    forall j: nat :: j0 <= j < j1 ==> Pair(i, j) !in hits
  }

  /** Checking a row past pairs that are not hits: the row from the first pair not known to miss. */
  lemma {:induction false} RowScanSkip(hits: set<Pair>, i: nat, j0: nat, j1: nat, e: nat)
    requires j0 <= j1 <= e && NoneBetween(hits, i, j0, j1)
    ensures Scan(hits, Row(i, j0, e)) == if j1 == e then Miss
      else if Pair(i, j1) in hits then Hit(Pair(i, j1), Row(i, j1 + 1, e)) else Scan(hits, Row(i, j1 + 1, e))
    decreases j1 - j0
  {
    if j0 < j1 {
      RowScanStep(hits, i, j0, e);
      RowScanSkip(hits, i, j0 + 1, j1, e);
    } else if j1 < e {
      RowScanStep(hits, i, j1, e);
    }
  }

  /** Checking a row whose pairs before j - 1 miss and whose pair at j - 1 is a hit finds that pair. */
  lemma RowFound(hits: set<Pair>, i: nat, j0: nat, j: nat, e: nat)
    requires j0 < j <= e && NoneBetween(hits, i, j0, j - 1) && Pair(i, j - 1) in hits
    ensures Scan(hits, Row(i, j0, e)) == Hit(Pair(i, j - 1), Row(i, j, e))
  {
    RowScanSkip(hits, i, j0, j - 1, e);
  }

  /** Checking a row none of whose pairs is a hit finds nothing. */
  lemma RowMissed(hits: set<Pair>, i: nat, j0: nat, e: nat)
    requires j0 <= e && NoneBetween(hits, i, j0, e)
    ensures Scan(hits, Row(i, j0, e)) == Miss
  {
    RowScanSkip(hits, i, j0, e, e);
  }

  /**
   * Once left_tup's pass over the right block has been checked: a hit
   * found in it comes with the rest of the pass and everything after; no
   * hit leaves what comes after the pass.
   */
  lemma PassDone(hits: set<Pair>, found: bool, c: Cursor, d: Cursor, nl: nat, nr: nat, pl: nat, pr: nat)
    requires 0 < pl && 0 < pr && c.hasLeft && 0 < c.lc && d == c.(rc := d.rc) && (found ==> 0 < d.rc)
    requires Scan(hits, Ahead(c)) == if found then Hit(CurPair(d), Ahead(d)) else Miss
    ensures Scan(hits, PendingAt(c, nl, nr, pl, pr)) ==
      if found then Hit(CurPair(d), PendingAt(d, nl, nr, pl, pr)) else Scan(hits, Behind(d, nl, nr, pl, pr))
  {
    var b := Behind(c, nl, nr, pl, pr);
    assert Behind(d, nl, nr, pl, pr) == b;
    ScanConcat(hits, Ahead(c), b);
  }

  /** Regrouping four runs of pairs. */
  lemma Regroup(x: seq<Pair>, y: seq<Pair>, z: seq<Pair>, w: seq<Pair>)
    ensures x + (y + z + w) == x + y + z + w
  {
  }

  /**
   * The left block that starts at a, its first tuple read, against the
   * right file's first block: every pair from left block a on is still
   * to be checked.
   */
  lemma LeftBlockStart(a: nat, nl: nat, pl: nat, nr: nat, pr: nat)
    requires 0 < pl && 0 < pr && a < nl
    ensures PendingAt(Cursor(a, 1, BlockEnd(a, nl, pl), true, 0, 0, BlockEnd(0, nr, pr)), nl, nr, pl, pr) == LeftBlocks(a, nl, pl, nr, pr)
  {
    var c := Cursor(a, 1, BlockEnd(a, nl, pl), true, 0, 0, BlockEnd(0, nr, pr));
    var e := BlockEnd(a, nl, pl);
    var R := BlockEnd(0, nr, pr);
    var X, Y, Z, W := Row(a, 0, R), Rows(a + 1, e, 0, R), RightBlocks(a, e, R, nr, pr), LeftBlocks(e, nl, pl, nr, pr);
    assert PendingAt(c, nl, nr, pl, pr) == X + (Y + Z + W) by {
      assert Ahead(c) == X;
      assert Behind(c, nl, nr, pl, pr) == Y + Z + W;
    }
    assert LeftBlocks(a, nl, pl, nr, pr) == RightBlocks(a, e, 0, nr, pr) + W;
    BlockFrom(a, e, 0, nr, pr);
    Regroup(X, Y, Z, W);
  }

  /** After init_join every pair of the two files is still to be checked, in block order. */
  lemma InitPending(nl: nat, nr: nat, pl: nat, pr: nat)
    requires 0 < pl && 0 < pr
    ensures PendingAt(Cursor(0, if nl == 0 then 0 else 1, BlockEnd(0, nl, pl), nl != 0, 0, 0, BlockEnd(0, nr, pr)), nl, nr, pl, pr)
      == LeftBlocks(0, nl, pl, nr, pr)
  {
    if nl == 0 {
      RightBlocksNone(0, 0, BlockEnd(0, nr, pr), nr, pr);
    } else {
      LeftBlockStart(0, nl, pl, nr, pr);
    }
  }

  /**
   * read_tup on the left block and reset_to_block_head on the right one,
   * once left_tup has met every right tuple of the block: the next left
   * tuple's pass comes next, and nothing is skipped.
   */
  lemma LeftStep(c: Cursor, nl: nat, nr: nat, pl: nat, pr: nat)
    requires 0 < pl && 0 < pr && c.ls + c.lc <= c.lp && c.rs + c.rc == c.rp
    ensures var more := c.ls + c.lc < c.lp;
      PendingAt(c.(lc := if more then c.lc + 1 else c.lc, hasLeft := more, rc := 0), nl, nr, pl, pr)
        == PendingAt(c, nl, nr, pl, pr)
  {
    var x := c.ls + c.lc;
    var Z, W := RightBlocks(c.ls, c.lp, c.rp, nr, pr), LeftBlocks(c.lp, nl, pl, nr, pr);
    assert PendingAt(c, nl, nr, pl, pr) == Rows(x, c.lp, c.rs, c.rp) + Z + W by {
      assert Ahead(c) == [];
    }
    if x < c.lp {
      var d := c.(lc := c.lc + 1, hasLeft := true, rc := 0);
      var X, Y := Row(x, c.rs, c.rp), Rows(x + 1, c.lp, c.rs, c.rp);
      assert PendingAt(d, nl, nr, pl, pr) == X + (Y + Z + W) by {
        assert Ahead(d) == X;
      }
      assert Rows(x, c.lp, c.rs, c.rp) == X + Y;
      Regroup(X, Y, Z, W);
    } else {
      var d := c.(hasLeft := false, rc := 0);
      assert PendingAt(d, nl, nr, pl, pr) == Rows(x, c.lp, c.rs, c.rp) + Z + W by {
        assert Ahead(d) == [];
      }
    }
  }


  /**
   * read_next_block on the right file and the left block read again from
   * its head, once the left block has met the right block: the pending
   * pairs are unchanged.
   */
  lemma NextRightBlock(c: Cursor, nl: nat, nr: nat, pl: nat, pr: nat)
    requires 0 < pl && 0 < pr && !c.hasLeft && c.ls + c.lc == c.lp && c.rp < nr
    ensures var k := if c.ls < c.lp then 1 else 0;
      PendingAt(Cursor(c.ls, k, c.lp, k == 1, c.rp, 0, BlockEnd(c.rp, nr, pr)), nl, nr, pl, pr) == PendingAt(c, nl, nr, pl, pr)
  {
    var e := BlockEnd(c.rp, nr, pr);
    var W := LeftBlocks(c.lp, nl, pl, nr, pr);
    assert PendingAt(c, nl, nr, pl, pr) == RightBlocks(c.ls, c.lp, c.rp, nr, pr) + W by {
      assert Ahead(c) == [] && Rows(c.ls + c.lc, c.lp, c.rs, c.rp) == [];
    }
    if c.ls < c.lp {
      var d := Cursor(c.ls, 1, c.lp, true, c.rp, 0, e);
      var X, Y, Z := Row(c.ls, c.rp, e), Rows(c.ls + 1, c.lp, c.rp, e), RightBlocks(c.ls, c.lp, e, nr, pr);
      assert PendingAt(d, nl, nr, pl, pr) == X + (Y + Z + W) by {
        assert Ahead(d) == X;
        assert Behind(d, nl, nr, pl, pr) == Y + Z + W;
      }
      BlockFrom(c.ls, c.lp, c.rp, nr, pr);
      Regroup(X, Y, Z, W);
    } else {
      var d := Cursor(c.ls, 0, c.lp, false, c.rp, 0, e);
      RightBlocksNone(c.ls, c.lp, e, nr, pr);
      RightBlocksNone(c.ls, c.lp, c.rp, nr, pr);
      assert PendingAt(d, nl, nr, pl, pr) == W by {
        assert Ahead(d) == [] && Rows(c.ls, c.lp, c.rp, e) == [];
      }
    }
  }

  /**
   * read_next_block on the left file and the right file read again from
   * its head, once the left block has met every right block: the pending
   * pairs are unchanged.
   */
  lemma NextLeftBlock(c: Cursor, nl: nat, nr: nat, pl: nat, pr: nat)
    requires 0 < pl && 0 < pr && !c.hasLeft && c.ls + c.lc == c.lp && c.rp == nr && c.lp < nl
    ensures PendingAt(Cursor(c.lp, 1, BlockEnd(c.lp, nl, pl), true, 0, 0, BlockEnd(0, nr, pr)), nl, nr, pl, pr)
      == PendingAt(c, nl, nr, pl, pr)
  {
    LeftBlockStart(c.lp, nl, pl, nr, pr);
    assert PendingAt(c, nl, nr, pl, pr) == LeftBlocks(c.lp, nl, pl, nr, pr);
  }

  /** Once both files have been read through, nothing is pending. */
  lemma NothingPending(c: Cursor, nl: nat, nr: nat, pl: nat, pr: nat)
    requires 0 < pl && 0 < pr && !c.hasLeft && c.ls + c.lc == c.lp && c.rp == nr && c.lp == nl
    ensures PendingAt(c, nl, nr, pl, pr) == []
  {
  }

  class NestedLoopJoinExecutor {
    const leftCols: seq<ColMeta>
    const rightCols: seq<ColMeta>
    /** The children's tupleLen(). */
    const leftLen: nat
    const rightLen: nat
    /** len_: a joined tuple's length. */
    const len: nat
    /** cols_: the left columns, then the right ones moved past the left tuple. */
    const cols: seq<ColMeta>
    /** col_offset_map: each column name of either side and its metadata within its own tuple. */
    const colMap: map<ColKey, ColMeta>
    /** The children's tuples, in the order their scans produce them. */
    const leftRecs: seq<seq<byte>>
    const rightRecs: seq<seq<byte>>
    const leftBlock: JoinBlock
    const rightBlock: JoinBlock
    /** fed_conds_; init_join keeps the join conditions only. */
    var conds: seq<Condition>
    var leftTup: Option<seq<byte>>
    var rightTup: Option<seq<byte>>
    /** matched_data. */
    var matched: seq<byte>
    var isEnd: bool

    /** What the constructor fixes: two distinct blocks and the tuple lengths. */
    ghost predicate Built()
    {
      && leftBlock != rightBlock
      && leftBlock.recordLen == leftLen && rightBlock.recordLen == rightLen
      && len == leftLen + rightLen
      && Tuples(leftRecs, leftLen) && Tuples(rightRecs, rightLen)
    }

    ghost predicate Valid()
      reads this`matched, this`conds
    {
      Built() && |matched| == len && PairsEvaluate(conds, colMap, leftRecs, rightRecs)
    }

    /** Before beginTuple: both blocks empty. */
    ghost predicate Unstarted()
      reads this, leftBlock, rightBlock
    {
      Valid() && leftBlock.Empty() && rightBlock.Empty() && leftTup.None? && rightTup.None?
    }

    /**
     * While joining: each child's tuples make up its block's file, the
     * current tuples come from them, and only join conditions are left.
     */
    ghost predicate Joining()
      reads this, leftBlock, rightBlock
    {
      && Valid()
      && leftBlock.Reading() && rightBlock.Reading()
      && leftBlock.file == leftRecs && rightBlock.file == rightRecs
      && (leftTup.Some? ==> 0 < leftBlock.cur && leftTup.value == leftRecs[leftBlock.start + leftBlock.cur - 1])
      && (leftTup.None? ==> leftBlock.cur == leftBlock.tupInBlock)
      && (rightTup.Some? ==> leftTup.Some? && 0 < rightBlock.cur && rightTup.value == rightRecs[rightBlock.start + rightBlock.cur - 1])
      && forall c :: c in conds ==> Kept(c, colMap)
    }

    /** Not at the end: matched_data is a pair of tuples the conditions hold for, left bytes then right. */
    ghost predicate AtMatch()
      reads this, leftBlock, rightBlock
      requires Joining()
    {
      !isEnd ==>
        && leftTup.Some? && rightTup.Some?
        && matched == leftTup.value + rightTup.value
        && JoinHolds(conds, colMap, leftTup.value, rightTup.value)
    }

    /** At the end: both children's files have been read through. */
    ghost predicate Exhausted()
      reads this, leftBlock, rightBlock
    {
      isEnd ==> leftTup.None? && leftBlock.readPos == |leftRecs| && rightBlock.readPos == |rightRecs|
    }

    /** Where the join stands in the two files. */
    ghost function At(): Cursor
      reads this, leftBlock, rightBlock
    {
      Cursor(leftBlock.start, leftBlock.cur, leftBlock.readPos, leftTup.Some?, rightBlock.start, rightBlock.cur, rightBlock.readPos)
    }

    /** The pairs continue_block_join has still to check, in the order it checks them. */
    ghost function Pending(): seq<Pair>
      reads this, leftBlock, rightBlock
      requires Joining()
    {
      PendingAt(At(), |leftRecs|, |rightRecs|, leftBlock.perBlock, rightBlock.perBlock)
    }

    /** The pair matched_data was copied from and the pairs after it, or Miss at the end. */
    ghost function Outcome(): Probed
      reads this, leftBlock, rightBlock
      requires Joining() && AtMatch()
    {
      if isEnd then Miss else Hit(CurPair(At()), Pending())
    }

    /**
     * The constructor once both temporary files are open: the column
     * layout, len_ and col_offset_map. matchedInit is what the len_-byte
     * matched_data buffer holds before any match (new char[] leaves it
     * uninitialised).
     */
    constructor(leftCols: seq<ColMeta>, rightCols: seq<ColMeta>, leftRecs: seq<seq<byte>>, rightRecs: seq<seq<byte>>,
                conds: seq<Condition>, leftBlock: JoinBlock, rightBlock: JoinBlock, matchedInit: seq<byte>)
      requires leftBlock != rightBlock && leftBlock.Empty() && rightBlock.Empty()
      requires |matchedInit| == leftBlock.recordLen + rightBlock.recordLen
      requires Tuples(leftRecs, leftBlock.recordLen) && Tuples(rightRecs, rightBlock.recordLen)
      requires PairsEvaluate(conds, ColMap(leftCols, rightCols), leftRecs, rightRecs)
      ensures Unstarted() && !isEnd
      ensures this.leftCols == leftCols && this.rightCols == rightCols && this.conds == conds
      ensures this.leftRecs == leftRecs && this.rightRecs == rightRecs
      ensures this.leftBlock == leftBlock && this.rightBlock == rightBlock
      ensures leftLen == leftBlock.recordLen && rightLen == rightBlock.recordLen && len == leftLen + rightLen
      ensures cols == leftCols + ShiftCols(rightCols, leftLen)
      ensures colMap == ColMap(leftCols, rightCols) && matched == matchedInit
    {
      this.leftCols := leftCols;
      this.rightCols := rightCols;
      this.leftRecs := leftRecs;
      this.rightRecs := rightRecs;
      this.leftBlock := leftBlock;
      this.rightBlock := rightBlock;
      leftLen := leftBlock.recordLen;
      rightLen := rightBlock.recordLen;
      len := leftBlock.recordLen + rightBlock.recordLen;
      matched := matchedInit;
      var m := InsertCols(map[], leftCols);
      m := InsertCols(m, rightCols);
      colMap := m;
      var shifted := ShiftOffsets(rightCols, leftBlock.recordLen);
      cols := leftCols + shifted;
      isEnd := false;
      this.conds := conds;
      leftTup := None;
      rightTup := None;
    }

    /**
     * init_join: both children loaded into their blocks and the files read
     * from their heads, the first left tuple taken, and the conditions
     * filtered down to the join's.
     */
    method InitJoin()
      requires Unstarted()
      modifies this`leftTup, this`isEnd, this`conds, leftBlock, rightBlock
      ensures Joining() && !isEnd && conds == JoinConds(old(conds), colMap)
      ensures leftBlock.readPos == Min(leftBlock.perBlock, |leftRecs|) && rightBlock.readPos == Min(rightBlock.perBlock, |rightRecs|)
      ensures rightBlock.cur == 0
      ensures leftTup == if leftRecs == [] then None else Some(leftRecs[0])
      ensures Pending() == LeftBlocks(0, |leftRecs|, leftBlock.perBlock, |rightRecs|, rightBlock.perBlock)
    {
      LoadForReading(leftBlock, leftRecs);
      leftTup := leftBlock.ReadTup();
      LoadForReading(rightBlock, rightRecs);
      isEnd := false;
      KeepJoinConds();
      InitPending(|leftRecs|, |rightRecs|, leftBlock.perBlock, rightBlock.perBlock);
    }

    /** The conditions init_join keeps: those comparing two columns the join knows. */
    method KeepJoinConds()
      requires Valid()
      modifies this`conds
      ensures Valid() && conds == JoinConds(old(conds), colMap)
      ensures forall c :: c in conds ==> Kept(c, colMap)
    {
      var kept := FilterConds(conds, colMap);
      PairsEvaluateKept(conds, colMap, leftRecs, rightRecs);
      conds := kept;
    }

    /**
     * The inner loop of continue_block_join: the current left tuple against
     * each remaining right tuple of the right block, stopping at the first
     * pair the conditions hold for.
     */
    method ScanRight(ghost hits: set<Pair>) returns (found: bool)
      requires Joining() && leftTup.Some? && HitsAre(hits, conds, colMap, leftRecs, rightRecs)
      modifies this`rightTup, this`matched, this`isEnd, rightBlock`cur
      ensures Joining()
      ensures found ==> !isEnd && AtMatch()
      ensures !found ==> rightTup.None? && isEnd == old(isEnd) && rightBlock.cur == rightBlock.tupInBlock
      ensures var i, j := leftBlock.start + leftBlock.cur - 1, rightBlock.start + rightBlock.cur;
        Scan(hits, Row(i, old(rightBlock.start + rightBlock.cur), rightBlock.readPos)) ==
          if found then Hit(Pair(i, j - 1), Row(i, j, rightBlock.readPos)) else Miss
    {
      ghost var i := leftBlock.start + leftBlock.cur - 1;
      ghost var rp := rightBlock.readPos;
      ghost var j0 := rightBlock.start + rightBlock.cur;
      NextRight();
      while rightTup.Some?
        invariant Joining() && leftTup.Some? && isEnd == old(isEnd)
        invariant leftBlock.start + leftBlock.cur - 1 == i && rightBlock.readPos == rp
        invariant rightTup.Some? ==> j0 < rightBlock.start + rightBlock.cur && NoneBetween(hits, i, j0, rightBlock.start + rightBlock.cur - 1)
        invariant rightTup.None? ==> NoneBetween(hits, i, j0, rp) && rightBlock.cur == rightBlock.tupInBlock
        decreases (if rightTup.Some? then 1 else 0) + rightBlock.tupInBlock - rightBlock.cur
      {
        var ok := TryPair(hits);
        if ok {
          RowFound(hits, i, j0, rightBlock.start + rightBlock.cur, rp);
          return true;
        }
        NextRight();
      }
      RowMissed(hits, i, j0, rp);
      return false;
    }

    /** The right block's next tuple becomes right_tup. */
    method NextRight()
      requires Joining() && leftTup.Some?
      modifies this`rightTup, rightBlock`cur
      ensures Joining() && rightBlock.tupInBlock == old(rightBlock.tupInBlock)
      ensures rightTup.Some? ==> rightBlock.cur == old(rightBlock.cur) + 1
      ensures rightTup.None? ==> rightBlock.cur == old(rightBlock.cur) == rightBlock.tupInBlock
    {
      rightTup := rightBlock.ReadTup();
    }

    /** check_cond on the current pair; on a match its bytes are copied into matched_data. */
    method TryPair(ghost hits: set<Pair>) returns (ok: bool)
      requires Joining() && leftTup.Some? && rightTup.Some? && HitsAre(hits, conds, colMap, leftRecs, rightRecs)
      modifies this`matched, this`isEnd
      ensures Joining()
      ensures ok ==> !isEnd && AtMatch()
      ensures !ok ==> isEnd == old(isEnd)
      ensures ok <==> Pair(leftBlock.start + leftBlock.cur - 1, rightBlock.start + rightBlock.cur - 1) in hits
    {
      MatchesAt(conds, colMap, leftRecs, rightRecs, leftBlock.start + leftBlock.cur - 1, rightBlock.start + rightBlock.cur - 1);
      PairsEvaluateAt(conds, colMap, leftRecs, rightRecs, leftBlock.start + leftBlock.cur - 1,
        rightBlock.start + rightBlock.cur - 1, leftTup.value, rightTup.value);
      ok := JoinCheckCond(conds, colMap, leftTup.value, rightTup.value);
      if ok {
        isEnd := false;
        matched := leftTup.value + rightTup.value;
      }
    }

    /**
     * The `while (left_tup)` loop of continue_block_join: each remaining
     * left tuple of the left block against each remaining right tuple of
     * the right block, stopping at the first pair the conditions hold for.
     */
    method ScanBlocks(ghost hits: set<Pair>) returns (found: bool)
      requires Joining() && HitsAre(hits, conds, colMap, leftRecs, rightRecs)
      modifies this`leftTup, this`rightTup, this`matched, this`isEnd, leftBlock`cur, rightBlock`cur
      ensures Joining()
      ensures found ==> !isEnd && AtMatch() && old(leftTup).Some?
      ensures !found ==> leftTup.None? && isEnd == old(isEnd)
      ensures Scan(hits, old(Pending())) == if found then Outcome() else Scan(hits, Pending())
    {
      while leftTup.Some?
        invariant Joining() && isEnd == old(isEnd) && (old(leftTup).None? ==> leftTup.None?)
        invariant Scan(hits, old(Pending())) == Scan(hits, Pending())
        decreases (if leftTup.Some? then 1 else 0) + leftBlock.tupInBlock - leftBlock.cur
      {
        found := LeftPass(hits);
        if found {
          return;
        }
      }
      return false;
    }

    /**
     * One turn of the `while (left_tup)` loop: left_tup against the rest
     * of the right block; without a match, the left block's next tuple
     * becomes left_tup and the right block is read again from its head.
     */
    method LeftPass(ghost hits: set<Pair>) returns (found: bool)
      requires Joining() && leftTup.Some? && HitsAre(hits, conds, colMap, leftRecs, rightRecs)
      modifies this`leftTup, this`rightTup, this`matched, this`isEnd, leftBlock`cur, rightBlock`cur
      ensures Joining()
      ensures found ==> !isEnd && AtMatch()
      ensures !found ==> isEnd == old(isEnd) && leftBlock.tupInBlock == old(leftBlock.tupInBlock)
      ensures !found ==> if leftTup.Some? then leftBlock.cur == old(leftBlock.cur) + 1 else leftBlock.cur == leftBlock.tupInBlock
      ensures Scan(hits, old(Pending())) == if found then Outcome() else Scan(hits, Pending())
    {
      ghost var nl, nr, pl, pr := |leftRecs|, |rightRecs|, leftBlock.perBlock, rightBlock.perBlock;
      ghost var c := At();
      found := ScanRight(hits);
      ghost var c1 := At();
      assert Scan(hits, Ahead(c)) == if found then Hit(CurPair(c1), Ahead(c1)) else Miss;
      PassDone(hits, found, c, c1, nl, nr, pl, pr);
      if found {
        return;
      }
      NextLeftTuple();
    }

    /**
     * The end of a turn without a match: read_tup on the left block and
     * reset_to_block_head on the right one. What was pending after
     * left_tup's pass is what is pending now.
     */
    method NextLeftTuple()
      requires Joining() && leftTup.Some? && rightTup.None? && rightBlock.cur == rightBlock.tupInBlock
      modifies this`leftTup, leftBlock`cur, rightBlock`cur
      ensures Joining() && leftBlock.tupInBlock == old(leftBlock.tupInBlock)
      ensures if leftTup.Some? then leftBlock.cur == old(leftBlock.cur) + 1 else leftBlock.cur == leftBlock.tupInBlock
      ensures Pending() == old(Behind(At(), |leftRecs|, |rightRecs|, leftBlock.perBlock, rightBlock.perBlock))
    {
      ghost var nl, nr, pl, pr := |leftRecs|, |rightRecs|, leftBlock.perBlock, rightBlock.perBlock;
      ghost var c := At();
      assert PendingAt(c, nl, nr, pl, pr) == Behind(c, nl, nr, pl, pr) by {
        assert Ahead(c) == [];
      }
      leftTup := leftBlock.ReadTup();
      rightBlock.ResetToBlockHead();
      LeftStep(c, nl, nr, pl, pr);
      ghost var more := c.ls + c.lc < c.lp;
      assert At() == c.(lc := if more then c.lc + 1 else c.lc, hasLeft := more, rc := 0);
    }

    /**
     * The block switch of continue_block_join: the right file's next block
     * against the same left block from its head; at the right file's end,
     * the left file's next block against the right file from its head; at
     * the left file's end too, the join is over.
     */
    method AdvanceBlocks() returns (more: bool)
      requires Joining() && leftTup.None?
      modifies this`leftTup, this`isEnd, leftBlock`readPos, leftBlock`start, leftBlock`tupInBlock, leftBlock`cur,
        rightBlock`readPos, rightBlock`start, rightBlock`tupInBlock, rightBlock`cur
      ensures Joining()
      ensures more ==> isEnd == old(isEnd)
      ensures more ==> (leftBlock.readPos > old(leftBlock.readPos)
        || (leftBlock.readPos == old(leftBlock.readPos) && rightBlock.readPos > old(rightBlock.readPos)))
      ensures !more <==> old(leftBlock.readPos) == |leftRecs| && old(rightBlock.readPos) == |rightRecs|
      ensures !more ==> isEnd && Exhausted()
      ensures more ==> Pending() == old(Pending())
      ensures !more ==> old(Pending()) == []
    {
      ghost var c := At();
      var n := rightBlock.ReadNextBlock();
      if n == 0 {
        assert Pending() == PendingAt(c, |leftRecs|, |rightRecs|, leftBlock.perBlock, rightBlock.perBlock);
        more := NextLeftBlockOrEnd();
      } else {
        RewindLeft(c);
        more := true;
      }
    }

    /**
     * Once the right file's next block has been read: the left block from
     * its head, its first tuple becoming left_tup. The pairs pending before
     * the right block was read are still pending.
     */
    method RewindLeft(ghost c: Cursor)
      requires Joining() && leftTup.None? && !c.hasLeft && c.ls + c.lc == c.lp && c.rp < |rightRecs|
      requires c.ls == leftBlock.start && c.lp == leftBlock.readPos
      requires rightBlock.start == c.rp && rightBlock.cur == 0 && rightBlock.readPos == BlockEnd(c.rp, |rightRecs|, rightBlock.perBlock)
      modifies this`leftTup, leftBlock`cur
      ensures Joining() && Pending() == PendingAt(c, |leftRecs|, |rightRecs|, leftBlock.perBlock, rightBlock.perBlock)
    {
      leftBlock.ResetToBlockHead();
      leftTup := leftBlock.ReadTup();
      NextRightBlock(c, |leftRecs|, |rightRecs|, leftBlock.perBlock, rightBlock.perBlock);
      ghost var k := if c.ls < c.lp then 1 else 0;
      assert At() == Cursor(c.ls, k, c.lp, k == 1, c.rp, 0, BlockEnd(c.rp, |rightRecs|, rightBlock.perBlock));
    }

    /**
     * Once the right file has been read through: the left file's next block
     * against the right file from its head, or at the left file's end the
     * end of the join.
     */
    method NextLeftBlockOrEnd() returns (more: bool)
      requires Joining() && leftTup.None? && rightBlock.readPos == |rightRecs| && rightBlock.cur == rightBlock.tupInBlock
      modifies this`leftTup, this`isEnd, leftBlock`readPos, leftBlock`start, leftBlock`tupInBlock, leftBlock`cur,
        rightBlock`readPos, rightBlock`start, rightBlock`tupInBlock, rightBlock`cur
      ensures Joining()
      ensures more ==> isEnd == old(isEnd) && leftBlock.readPos > old(leftBlock.readPos)
      ensures !more <==> old(leftBlock.readPos) == |leftRecs|
      ensures !more ==> isEnd && Exhausted()
      ensures more ==> Pending() == old(Pending())
      ensures !more ==> old(Pending()) == []
    {
      ghost var c := At();
      ghost var nl, nr, pl, pr := |leftRecs|, |rightRecs|, leftBlock.perBlock, rightBlock.perBlock;
      var n := leftBlock.ReadNextBlock();
      if n == 0 {
        NothingPending(c, nl, nr, pl, pr);
        isEnd := true;
        return false;
      }
      leftTup := leftBlock.ReadTup();
      StartLeftBlock(c);
      return true;
    }

    /** The first tuple of a fresh left block, against the first right block. */
    method StartLeftBlock(ghost c: Cursor)
      requires Joining() && leftTup.Some? && rightTup.None? && !c.hasLeft && c.ls + c.lc == c.lp && c.lp < |leftRecs|
      requires c.rp == |rightRecs| && c.rs + c.rc == c.rp
      requires leftBlock.start == c.lp && leftBlock.cur == 1 && leftBlock.readPos == BlockEnd(c.lp, |leftRecs|, leftBlock.perBlock)
      modifies rightBlock`readPos, rightBlock`start, rightBlock`tupInBlock, rightBlock`cur
      ensures Joining() && leftBlock.readPos == old(leftBlock.readPos) && leftBlock.start == old(leftBlock.start)
      ensures Pending() == PendingAt(c, |leftRecs|, |rightRecs|, leftBlock.perBlock, rightBlock.perBlock)
    {
      ghost var nl, nr, pl, pr := |leftRecs|, |rightRecs|, leftBlock.perBlock, rightBlock.perBlock;
      rightBlock.ResetToFileHead();
      NextLeftBlock(c, nl, nr, pl, pr);
      assert At() == Cursor(c.lp, 1, BlockEnd(c.lp, nl, pl), true, 0, 0, BlockEnd(0, nr, pr));
    }

    /**
     * continue_block_join: on to the next pair the conditions hold for,
     * whose bytes become matched_data; isend only once both files have been
     * read through.
     */
    method ContinueBlockJoin(ghost hits: set<Pair>)
      requires Joining() && Exhausted() && HitsAre(hits, conds, colMap, leftRecs, rightRecs)
      modifies this`leftTup, this`rightTup, this`matched, this`isEnd, leftBlock`readPos, leftBlock`start, leftBlock`tupInBlock, leftBlock`cur,
        rightBlock`readPos, rightBlock`start, rightBlock`tupInBlock, rightBlock`cur
      ensures Joining() && AtMatch() && Exhausted()
      ensures old(isEnd) ==> isEnd
      ensures Scan(hits, old(Pending())) == Outcome()
    {
      while true
        invariant Joining() && Exhausted() && (old(isEnd) ==> isEnd)
        invariant Scan(hits, old(Pending())) == Scan(hits, Pending())
        decreases |leftRecs| - leftBlock.readPos, |rightRecs| - rightBlock.readPos
      {
        var found := ScanBlocks(hits);
        if found {
          return;
        }
        var more := AdvanceBlocks();
        if !more {
          return;
        }
      }
    }

    /**
     * beginTuple: init_join, then the first pair that matches in block
     * order; the join is over at once exactly when no pair of the
     * children's tuples matches.
     */
    method BeginTuple()
      requires Unstarted()
      modifies this`leftTup, this`rightTup, this`matched, this`isEnd, this`conds, leftBlock, rightBlock
      ensures Joining() && AtMatch() && Exhausted() && conds == JoinConds(old(conds), colMap)
      ensures Outcome() == Scan(Hits(conds, colMap, leftRecs, rightRecs), LeftBlocks(0, |leftRecs|, leftBlock.perBlock, |rightRecs|, rightBlock.perBlock))
      ensures isEnd <==> NoMatch(conds, colMap, leftRecs, rightRecs)
    {
      InitJoin();
      ContinueBlockJoin(Hits(conds, colMap, leftRecs, rightRecs));
      NoHitIffNoMatch(conds, colMap, leftRecs, rightRecs, leftBlock.perBlock, rightBlock.perBlock);
    }

    /** nextTuple: the next pair that matches, in block order; at the end it stays at the end. */
    method NextTuple()
      requires Joining() && Exhausted()
      modifies this`leftTup, this`rightTup, this`matched, this`isEnd, leftBlock`readPos, leftBlock`start, leftBlock`tupInBlock, leftBlock`cur,
        rightBlock`readPos, rightBlock`start, rightBlock`tupInBlock, rightBlock`cur
      ensures Joining() && AtMatch() && Exhausted()
      ensures old(isEnd) ==> isEnd
      ensures Scan(Hits(conds, colMap, leftRecs, rightRecs), old(Pending())) == Outcome()
    {
      ContinueBlockJoin(Hits(conds, colMap, leftRecs, rightRecs));
    }

    /** Next: a record of len_ bytes holding matched_data. */
    function Next(): (rec: seq<byte>)
      reads this
      requires Valid()
      ensures |rec| == len && rec == matched
    {
      matched
    }
  }

  /**
   * The executor's construction: the left block's file is opened first,
   * then the right one's; a failure aborts the transaction with
   * NESTLOOPJOIN_FILE_FAILURE. matchedInit is the uninitialised
   * matched_data buffer's contents.
   */
  method Create(leftCols: seq<ColMeta>, rightCols: seq<ColMeta>, leftLen: nat, rightLen: nat,
                leftRecs: seq<seq<byte>>, rightRecs: seq<seq<byte>>, conds: seq<Condition>,
                leftOpened: bool, rightOpened: bool, txn: Transaction, matchedInit: seq<byte>)
    returns (r: Result<NestedLoopJoinExecutor, AbortReason>)
    requires |matchedInit| == leftLen + rightLen
    requires 0 < leftLen <= Disk.PAGE_SIZE && 0 < rightLen <= Disk.PAGE_SIZE
    requires Tuples(leftRecs, leftLen) && Tuples(rightRecs, rightLen)
    requires PairsEvaluate(conds, ColMap(leftCols, rightCols), leftRecs, rightRecs)
    modifies txn`state
    ensures r.Ok? <==> leftOpened && rightOpened
    ensures r.Ok? ==> fresh(r.value) && fresh(r.value.leftBlock) && fresh(r.value.rightBlock) && r.value.Unstarted()
    ensures r.Ok? ==> r.value.len == leftLen + rightLen && txn.state == old(txn.state)
    ensures r.Err? ==> r.error == NestloopjoinFileFailure && txn.state == Aborted
  {
    var lb := OpenBlock(leftLen, leftOpened, txn);
    if lb.Err? {
      return Err(lb.error);
    }
    var rb := OpenBlock(rightLen, rightOpened, txn);
    if rb.Err? {
      return Err(rb.error);
    }
    var e := new NestedLoopJoinExecutor(leftCols, rightCols, leftRecs, rightRecs, conds, lb.value, rb.value, matchedInit);
    return Ok(e);
  }
}
