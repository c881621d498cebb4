// HashJoinExecutor of src/execution/executor_hash_join.h: the join
// conditions among the given ones, the join column (the first equality
// condition), the partitioning of both children's tuples, and the walk over
// the pairs of partitions that both hold tuples, each joined by a
// PartitionHashJoin. The children are given by the tuples their scans
// produce.
module HashJoinExec {
  import opened Wrappers
  import opened Values
  import opened Catalog
  import opened NestedLoopJoin
  import opened HashJoin
  import opened HashPartition
  import Disk

  // ---------------------------------------------------------------------
  // The join column.

  /** The position of the first equality condition, |conds| when there is none. */
  function FirstEq(conds: seq<Condition>): (k: nat)
    ensures k <= |conds| && (k < |conds| ==> conds[k].op == OpEq)
    ensures forall j :: 0 <= j < k ==> conds[j].op != OpEq
    decreases |conds|
  {
    if conds == [] then 0
    else if conds[0].op == OpEq then 0
    else 1 + FirstEq(conds[1..])
  }

  /** The constructor's search for the join column: the first condition with OP_EQ. */
  method FindJoinKey(conds: seq<Condition>) returns (k: nat)
    ensures k == FirstEq(conds)
  {
    k := 0;
    while k < |conds| && conds[k].op != OpEq
      invariant k <= |conds| && forall j :: 0 <= j < k ==> conds[j].op != OpEq
    {
      k := k + 1;
    }
    FirstEqIsFirst(conds, k);
  }

  /** The first equality condition is the only index before which none is one and at which one is. */
  lemma {:induction false} FirstEqIsFirst(conds: seq<Condition>, k: nat)
    requires k <= |conds| && (k < |conds| ==> conds[k].op == OpEq)
    requires forall j :: 0 <= j < k ==> conds[j].op != OpEq
    ensures FirstEq(conds) == k
    decreases |conds|
  {
    if conds != [] && k > 0 {
      FirstEqIsFirst(conds[1..], k - 1);
    }
  }

  // ---------------------------------------------------------------------
  // Pairs of partitions.

  /** Partition i holds tuples on both sides. */
  predicate Shared(lmeta: ColMeta, lrecs: seq<seq<byte>>, rmeta: ColMeta, rrecs: seq<seq<byte>>, i: int)
    requires forall k :: 0 <= k < |lrecs| ==> Hashable(lmeta, lrecs[k])
    requires forall k :: 0 <= k < |rrecs| ==> Hashable(rmeta, rrecs[k])
  {
    OfCode(lmeta, lrecs, i) != [] && OfCode(rmeta, rrecs, i) != []
  }

  /**
   * The first partition from `from` on that holds tuples on both sides,
   * PARTITION_NUM when there is none: the partition beginTuple (from 0)
   * and continue_join (from partition_idx) join next.
   */
  function FirstShared(lmeta: ColMeta, lrecs: seq<seq<byte>>, rmeta: ColMeta, rrecs: seq<seq<byte>>, from: nat): (i: nat)
    requires forall k :: 0 <= k < |lrecs| ==> Hashable(lmeta, lrecs[k])
    requires forall k :: 0 <= k < |rrecs| ==> Hashable(rmeta, rrecs[k])
    requires from <= PARTITION_NUM
    ensures from <= i <= PARTITION_NUM
    ensures i < PARTITION_NUM ==> Shared(lmeta, lrecs, rmeta, rrecs, i)
    ensures forall j :: from <= j < i ==> !Shared(lmeta, lrecs, rmeta, rrecs, j)
    decreases PARTITION_NUM - from
  {
    if from == PARTITION_NUM then PARTITION_NUM
    else if Shared(lmeta, lrecs, rmeta, rrecs, from) then from
    else FirstShared(lmeta, lrecs, rmeta, rrecs, from + 1)
  }

  /**
   * A join whose left child yields no tuple has no partition shared by
   * both sides: beginTuple's search ends at PARTITION_NUM without setting
   * the join, and as written build_hash_table is then called on it.
   */
  lemma EmptyLeftLeavesJoinUnset(lmeta: ColMeta, rmeta: ColMeta, rrecs: seq<seq<byte>>)
    requires forall k :: 0 <= k < |rrecs| ==> Hashable(rmeta, rrecs[k])
    ensures FirstShared(lmeta, [], rmeta, rrecs, 0) == PARTITION_NUM
  {
    forall j | 0 <= j < PARTITION_NUM
      ensures !Shared(lmeta, [], rmeta, rrecs, j)
    {
      assert OfCode(lmeta, [], j) == [];
    }
  }

  /** The search loop of beginTuple and continue_join: each partition in turn from `from`, read from both sides. */
  method FindShared(lp: Partition, rp: Partition, from: nat) returns (i: nat, left: seq<seq<byte>>, right: seq<seq<byte>>)
    requires lp.Valid() && rp.Valid() && from <= PARTITION_NUM
    ensures i == FirstShared(lp.meta, lp.put, rp.meta, rp.put, from)
    ensures i < PARTITION_NUM ==> left == OfCode(lp.meta, lp.put, i) && right == OfCode(rp.meta, rp.put, i)
  {
    i := from;
    left, right := [], [];
    while i < PARTITION_NUM
      invariant from <= i <= PARTITION_NUM
      invariant FirstShared(lp.meta, lp.put, rp.meta, rp.put, from) == FirstShared(lp.meta, lp.put, rp.meta, rp.put, i)
    {
      var ln, rn;
      left, ln := lp.GetPartition(i);
      right, rn := rp.GetPartition(i);
      if ln != 0 && rn != 0 {
        return;
      }
      i := i + 1;
    }
  }

  // ---------------------------------------------------------------------
  // The inputs.

  /** The partitions of a child's tuples lie among its tuples. */
  lemma OfCodeWithin(col: ColMeta, recs: seq<seq<byte>>, c: int, len: nat)
    requires Partitionable(col, len, recs)
    ensures Partitionable(col, len, OfCode(col, recs, c))
    ensures forall a :: 0 <= a < |OfCode(col, recs, c)| ==> OfCode(col, recs, c)[a] in recs
  {
    var part := OfCode(col, recs, c);
    OfCodeExactly(col, recs, c);
    forall a | 0 <= a < |part|
      ensures part[a] in recs && Hashable(col, part[a]) && |part[a]| == len
    {
      assert part[a] in part;
      var k :| 0 <= k < |recs| && recs[k] == part[a];
    }
  }

  /** A left tuple and a right tuple of a pair of partitions, joined: the left child's tuple then the right child's. */
  lemma MatchedWithin(lmeta: ColMeta, rmeta: ColMeta, leftLen: nat, rightLen: nat, lrecs: seq<seq<byte>>, rrecs: seq<seq<byte>>,
                      i: int, a: nat, b: nat)
    requires Partitionable(lmeta, leftLen, lrecs) && Partitionable(rmeta, rightLen, rrecs)
    requires a < |OfCode(lmeta, lrecs, i)| && b < |OfCode(rmeta, rrecs, i)|
    ensures var joined := OfCode(lmeta, lrecs, i)[a] + OfCode(rmeta, rrecs, i)[b];
      |joined| == leftLen + rightLen && joined[..leftLen] in lrecs && joined[leftLen..] in rrecs
  {
    OfCodeWithin(lmeta, lrecs, i, leftLen);
    OfCodeWithin(rmeta, rrecs, i, rightLen);
    var l, r := OfCode(lmeta, lrecs, i)[a], OfCode(rmeta, rrecs, i)[b];
    assert (l + r)[..leftLen] == l && (l + r)[leftLen..] == r;
  }

  /** Conditions that can be evaluated on every pair of two children's tuples can be on every pair drawn from them. */
  lemma PairsEvaluateWithin(conds: seq<Condition>, m: map<ColKey, ColMeta>, lrecs: seq<seq<byte>>, rrecs: seq<seq<byte>>,
                            left: seq<seq<byte>>, right: seq<seq<byte>>)
    requires PairsEvaluate(conds, m, lrecs, rrecs)
    requires forall a :: 0 <= a < |left| ==> left[a] in lrecs
    requires forall b :: 0 <= b < |right| ==> right[b] in rrecs
    ensures PairsEvaluate(conds, m, left, right)
  {
    forall i, a, b | 0 <= i < |conds| && 0 <= a < |left| && 0 <= b < |right| && Kept(conds[i], m)
      ensures JoinEvaluable(conds[i], m, left[a], right[b])
    {
      var x :| 0 <= x < |lrecs| && lrecs[x] == left[a];
      var y :| 0 <= y < |rrecs| && rrecs[y] == right[b];
    }
  }

  /**
   * What the join demands of the children's tuples: the join conditions
   * can be evaluated on every pair, the join columns are INT columns of
   * tuples of the children's lengths, and left_num fits an int.
   */
  predicate Inputs(conds: seq<Condition>, m: map<ColKey, ColMeta>, lmeta: ColMeta, rmeta: ColMeta, leftLen: nat, rightLen: nat,
                   lrecs: seq<seq<byte>>, rrecs: seq<seq<byte>>)
  {
    && PairsEvaluate(conds, m, lrecs, rrecs) && (forall c :: c in conds ==> Kept(c, m))
    && Partitionable(lmeta, leftLen, lrecs) && Partitionable(rmeta, rightLen, rrecs)
    && |lrecs| < 0x8000_0000
  }

  /** Each pair of partitions is an input PartitionHashJoin can join. */
  lemma PartitionsJoinable(conds: seq<Condition>, m: map<ColKey, ColMeta>, lmeta: ColMeta, rmeta: ColMeta, leftLen: nat, rightLen: nat,
                           lrecs: seq<seq<byte>>, rrecs: seq<seq<byte>>, i: int)
    requires Inputs(conds, m, lmeta, rmeta, leftLen, rightLen, lrecs, rrecs)
    ensures JoinInputs(conds, m, lmeta, rmeta, OfCode(lmeta, lrecs, i), OfCode(rmeta, rrecs, i))
  {
    OfCodeWithin(lmeta, lrecs, i, leftLen);
    OfCodeWithin(rmeta, rrecs, i, rightLen);
    PairsEvaluateWithin(conds, m, lrecs, rrecs, OfCode(lmeta, lrecs, i), OfCode(rmeta, rrecs, i));
  }

  /** No partition from `from` on holds tuples on both sides. */
  predicate NoneShared(lmeta: ColMeta, lrecs: seq<seq<byte>>, rmeta: ColMeta, rrecs: seq<seq<byte>>, from: nat)
    requires forall k :: 0 <= k < |lrecs| ==> Hashable(lmeta, lrecs[k])
    requires forall k :: 0 <= k < |rrecs| ==> Hashable(rmeta, rrecs[k])
  {
    forall j :: from <= j < PARTITION_NUM ==> !Shared(lmeta, lrecs, rmeta, rrecs, j)
  }

  class HashJoinExecutor {
    const leftCols: seq<ColMeta>
    const rightCols: seq<ColMeta>
    /** The children's tupleLen(). */
    const leftLen: nat
    const rightLen: nat
    /** len_: a joined tuple's length. */
    const len: nat
    /** cols_: the left columns, then the right ones moved past the left tuple. */
    const cols: seq<ColMeta>
    /** col_offset_map. */
    const colMap: map<ColKey, ColMeta>
    /** The children's tuples, in the order their scans produce them. */
    const leftRecs: seq<seq<byte>>
    const rightRecs: seq<seq<byte>>
    /** fed_conds_: the join conditions among those given. */
    const conds: seq<Condition>
    /** left_part and right_part: set only when some join condition is an equality. */
    const leftPart: Partition?
    const rightPart: Partition?
    /** join: set by beginTuple. */
    var join: PartitionHashJoin?
    /** partition_idx: the partition to look at next. */
    var partitionIdx: nat
    /** matched_data. */
    var matched: seq<byte>
    var isEnd: bool

    /** Before beginTuple: the partitions, if any, are empty and no join is set. */
    ghost predicate Unstarted()
      reads this`join, this`partitionIdx, this`isEnd, leftPart, rightPart
    {
      && (leftPart == null <==> rightPart == null)
      && (leftPart != null ==>
            && leftPart != rightPart && leftPart.Valid() && rightPart.Valid()
            && leftPart.put == [] && rightPart.put == []
            && leftPart.recordLen == leftLen && rightPart.recordLen == rightLen)
      && join == null && partitionIdx == 0 && !isEnd
    }

    /** After the partitioning: the partitions hold the children's tuples. */
    ghost predicate Partitioned()
      reads leftPart, rightPart
    {
      && leftPart != null && rightPart != null && leftPart != rightPart && len == leftLen + rightLen
      && leftPart.Valid() && rightPart.Valid() && leftPart.put == leftRecs && rightPart.put == rightRecs
      && Inputs(conds, colMap, leftPart.meta, rightPart.meta, leftLen, rightLen, leftRecs, rightRecs)
    }

    /** The join holds the pair of partitions before partition_idx, with the executor's conditions and join columns. */
    ghost predicate Loaded()
      reads this`join, this`partitionIdx, leftPart, rightPart, join`left, join`right
      requires Partitioned() && join != null
    {
      && 0 < partitionIdx <= PARTITION_NUM
      && join.conds == conds && join.colMap == colMap
      && join.leftJoinCol == leftPart.meta && join.rightJoinCol == rightPart.meta
      && join.left == OfCode(leftPart.meta, leftRecs, partitionIdx - 1)
      && join.right == OfCode(rightPart.meta, rightRecs, partitionIdx - 1)
    }

    /** While joining: the pair of partitions loaded, its table built, and the probe under way. */
    ghost predicate Joining()
      reads this`join, this`partitionIdx, leftPart, rightPart, join, if join == null then {} else {join.table, join.next}
    {
      Partitioned() && join != null && Loaded() && join.Coded() && join.Built() && join.Probing()
    }

    /** matched_data is a left tuple then a right tuple of the current pair of partitions that check_cond accepts. */
    ghost predicate AtMatch()
      reads this`join, this`partitionIdx, this`matched, leftPart, rightPart, join, join.table, join.next
      requires Joining()
    {
      join.AtHit() && matched == join.left[join.matchL] + join.right[join.matchR]
    }

    /** Nothing is left to join: the current pair of partitions is probed through, and no later pair holds tuples on both sides. */
    ghost predicate Exhausted()
      reads this`join, this`partitionIdx, leftPart, rightPart, join, join.table, join.next
      requires Joining()
    {
      join.ProbedThrough() && NoneShared(leftPart.meta, leftRecs, rightPart.meta, rightRecs, partitionIdx)
    }

    /**
     * The constructor: col_offset_map and cols_ as for the nested-loop
     * join, the join conditions kept, and both Partitions created on the
     * columns of the first equality condition among them. matchedInit is
     * the uninitialised matched_data buffer's contents, as for the
     * nested-loop join.
     */
    constructor(leftCols: seq<ColMeta>, rightCols: seq<ColMeta>, leftLen: nat, rightLen: nat,
                leftRecs: seq<seq<byte>>, rightRecs: seq<seq<byte>>, conds: seq<Condition>, matchedInit: seq<byte>)
      requires 0 < leftLen <= Disk.PAGE_SIZE && 0 < rightLen <= Disk.PAGE_SIZE
      requires |matchedInit| == leftLen + rightLen
      ensures Unstarted()
      ensures this.leftCols == leftCols && this.rightCols == rightCols
      ensures this.leftLen == leftLen && this.rightLen == rightLen && len == leftLen + rightLen
      ensures this.leftRecs == leftRecs && this.rightRecs == rightRecs
      ensures colMap == ColMap(leftCols, rightCols) && cols == leftCols + ShiftCols(rightCols, leftLen)
      ensures matched == matchedInit
      ensures this.conds == JoinConds(conds, colMap)
      ensures var k := FirstEq(this.conds);
        && (leftPart != null <==> k < |this.conds|)
        && (k < |this.conds| ==>
              && CondKey(this.conds[k].lhsCol) in colMap && leftPart.meta == colMap[CondKey(this.conds[k].lhsCol)]
              && CondKey(this.conds[k].rhsCol) in colMap && rightPart.meta == colMap[CondKey(this.conds[k].rhsCol)])
    {
      this.leftCols := leftCols;
      this.rightCols := rightCols;
      this.leftLen := leftLen;
      this.rightLen := rightLen;
      this.leftRecs := leftRecs;
      this.rightRecs := rightRecs;
      len := leftLen + rightLen;
      matched := matchedInit;
      var m := InsertCols(map[], leftCols);
      m := InsertCols(m, rightCols);
      colMap := m;
      var shifted := ShiftOffsets(rightCols, leftLen);
      cols := leftCols + shifted;
      var kept := FilterConds(conds, m);
      this.conds := kept;
      var k := FindJoinKey(kept);
      if k < |kept| {
        assert kept[k] in kept;
        var lp := new Partition(leftLen, m[CondKey(kept[k].lhsCol)]);
        var rp := new Partition(rightLen, m[CondKey(kept[k].rhsCol)]);
        leftPart, rightPart := lp, rp;
      } else {
        leftPart, rightPart := null, null;
      }
      join := null;
      partitionIdx := 0;
      isEnd := false;
    }

    /**
     * continue_join: the current pair of partitions probed on; when it has
     * no more matches, the next pair holding tuples on both sides is loaded
     * and probed, and so on. It returns true at a match, with matched_data
     * set, and false once no pair is left.
     */
    method ContinueJoin() returns (found: bool)
      requires Joining()
      modifies this`partitionIdx, this`matched, join
      ensures Joining() && old(partitionIdx) <= partitionIdx
      ensures found ==> AtMatch()
      ensures !found ==> Exhausted()
      decreases PARTITION_NUM - partitionIdx
    {
      found := join.ContinueProbe();
      assert Joining();
      if found {
        matched := join.left[join.matchL] + join.right[join.matchR];
        return;
      }
      var more := LoadNext();
      if more {
        found := ContinueJoin();
      }
    }

    /**
     * The search of continue_join once a pair of partitions has no more
     * matches: the next pair holding tuples on both sides, loaded into the
     * join with its table built; when there is none, nothing changes.
     */
    method LoadNext() returns (more: bool)
      requires Joining()
      modifies this`partitionIdx, join
      ensures Joining()
      ensures more ==> old(partitionIdx) < partitionIdx
      ensures !more ==> (partitionIdx == old(partitionIdx) && unchanged(join)
                         && NoneShared(leftPart.meta, leftRecs, rightPart.meta, rightRecs, partitionIdx))
    {
      var i, l, r := FindShared(leftPart, rightPart, partitionIdx);
      if i == PARTITION_NUM {
        return false;
      }
      PartitionsJoinable(conds, colMap, leftPart.meta, rightPart.meta, leftLen, rightLen, leftRecs, rightRecs, i);
      LoadPair(i, l, r);
      more := true;
    }

    /** The join takes pair i of partitions, l and r, and builds its table; partition_idx moves past i. */
    method LoadPair(i: nat, l: seq<seq<byte>>, r: seq<seq<byte>>)
      requires Partitioned() && join != null && i < PARTITION_NUM && 0 < |r|
      requires join.conds == conds && join.colMap == colMap
      requires join.leftJoinCol == leftPart.meta && join.rightJoinCol == rightPart.meta
      requires l == OfCode(leftPart.meta, leftRecs, i) && r == OfCode(rightPart.meta, rightRecs, i)
      requires JoinInputs(conds, colMap, leftPart.meta, rightPart.meta, l, r)
      modifies this`partitionIdx, join
      ensures Joining() && partitionIdx == i + 1
    {
      partitionIdx := i + 1;
      join.UpdateNextPartition(l, r);
      join.BuildHashTable();
    }

    /**
     * beginTuple: both children partitioned, the first pair of partitions
     * holding tuples on both sides joined, and the first match sought. When
     * no pair holds tuples on both sides the join is at its end.
     */
    method BeginTuple()
      requires Unstarted() && leftPart != null && len == leftLen + rightLen
      requires Inputs(conds, colMap, leftPart.meta, rightPart.meta, leftLen, rightLen, leftRecs, rightRecs)
      modifies this`join, this`partitionIdx, this`matched, this`isEnd, leftPart, rightPart
      ensures join == null ==> isEnd && NoneShared(leftPart.meta, leftRecs, rightPart.meta, rightRecs, 0)
      ensures join != null ==> fresh(join) && Joining() && (if isEnd then Exhausted() else AtMatch())
    {
      PartitionInputs();
      var started := StartJoin();
      if !started {
        isEnd := true;
        return;
      }
      NextTuple();
    }

    /** The partitioning loops of beginTuple: each child's tuples put into its Partition. */
    method PartitionInputs()
      requires Unstarted() && leftPart != null && len == leftLen + rightLen
      requires Inputs(conds, colMap, leftPart.meta, rightPart.meta, leftLen, rightLen, leftRecs, rightRecs)
      modifies leftPart, rightPart
      ensures Partitioned() && join == null && partitionIdx == 0 && !isEnd
    {
      PartitionAll(leftPart, leftRecs);
      PartitionAll(rightPart, rightRecs);
      assert leftPart.put == leftRecs && rightPart.put == rightRecs;
    }

    /**
     * The search of beginTuple: the first pair of partitions holding tuples
     * on both sides, with the join created on it and its table built; when
     * there is none, no join is set.
     */
    method StartJoin() returns (started: bool)
      requires Partitioned() && join == null && partitionIdx == 0
      modifies this`join, this`partitionIdx
      ensures started ==> fresh(join) && Joining()
      ensures !started ==> join == null && NoneShared(leftPart.meta, leftRecs, rightPart.meta, rightRecs, 0)
    {
      var i, l, r := FindShared(leftPart, rightPart, 0);
      if i == PARTITION_NUM {
        return false;
      }
      partitionIdx := i + 1;
      PartitionsJoinable(conds, colMap, leftPart.meta, rightPart.meta, leftLen, rightLen, leftRecs, rightRecs, i);
      join := new PartitionHashJoin(conds, colMap, l, leftPart.meta, r, rightPart.meta);
      assert Partitioned() && Loaded();
      join.BuildHashTable();
      assert Partitioned() && Loaded();
      started := true;
    }

    /** nextTuple: the next match; once at the end it stays there. */
    method NextTuple()
      requires Joining()
      modifies this`partitionIdx, this`matched, this`isEnd, join
      ensures Joining() && old(partitionIdx) <= partitionIdx
      ensures if isEnd then Exhausted() else AtMatch()
    {
      var found := ContinueJoin();
      isEnd := !found;
    }

    /** Next: matched_data, a left tuple of the join followed by a right one. */
    function Next(): (rec: seq<byte>)
      reads this, leftPart, rightPart, join, join.table, join.next
      requires Joining() && !isEnd && AtMatch()
      ensures |rec| == len && rec[..leftLen] in leftRecs && rec[leftLen..] in rightRecs
    {
      MatchedWithin(leftPart.meta, rightPart.meta, leftLen, rightLen, leftRecs, rightRecs, partitionIdx - 1, join.matchL, join.matchR);
      matched
    }
  }
}
