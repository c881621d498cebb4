// The index scan (src/execution/executor_index_scan.h): conditions turned
// round so that their left side is on the scanned table, a lower and an
// upper key built from the conditions on the index columns, and a walk
// over the index entries between the two that stops at every record
// satisfying all the conditions.
//
// A key is held as its column segments, one per index column; the key
// buffer of col_tot_len bytes is their concatenation, and the running
// `offset` of the code is the start of the current segment. Keys are
// compared column by column, INT segments by value and STRING segments
// byte by byte (the comparison ix_compare makes; its header is not part of
// this model).
module IndexScan {
  import opened Wrappers
  import opened Errors
  import opened Values
  import opened Catalog
  import opened ExecManager
  import opened Conditions
  import opened SeqScan
  import opened Txn
  import opened Locking

  // ---------------------------------------------------------------------
  // Conditions turned round.

  /**
   * The constructor's loop body: a condition whose left side is on another
   * table has its sides exchanged and its operator mirrored; a condition
   * already on this table stays as it is.
   */
  function Flip(tabName: string, cond: Condition): (r: Condition)
    requires cond.lhsCol.tabName != tabName ==> !cond.isRhsVal && cond.rhsCol.tabName == tabName
    ensures r.lhsCol.tabName == tabName || r == cond
    ensures cond.lhsCol.tabName == tabName ==> r == cond
    ensures cond.lhsCol.tabName != tabName ==>
      && r.lhsCol == cond.rhsCol && r.rhsCol == cond.lhsCol && !r.isRhsVal
      && (forall a: int, b: int {:trigger CompareInt(a, b, r.op)} :: CompareInt(a, b, r.op) == CompareInt(b, a, cond.op))
      && (forall a: seq<byte>, b: seq<byte> {:trigger CompareBytes(a, b, r.op)} :: CompareBytes(a, b, r.op) == CompareBytes(b, a, cond.op))
  {
    if cond.lhsCol.tabName != tabName then cond.(lhsCol := cond.rhsCol, rhsCol := cond.lhsCol, op := SwapOp(cond.op))
    else cond
  }

  /** Turning a condition round twice gives it back. */
  lemma FlipTwice(tabName: string, other: string, cond: Condition)
    requires other != tabName && cond.lhsCol.tabName == other && !cond.isRhsVal && cond.rhsCol.tabName == tabName
    ensures Flip(other, Flip(tabName, cond)) == cond
  {
    SwapOpInvolution(cond.op);
  }

  /** What the constructor asserts: a condition not on this table compares one of its columns. */
  predicate Flippable(tabName: string, conds: seq<Condition>)
  {
    forall i :: 0 <= i < |conds| && conds[i].lhsCol.tabName != tabName ==> !conds[i].isRhsVal && conds[i].rhsCol.tabName == tabName
  }

  /** Every condition turned to this table. */
  function Flipped(tabName: string, conds: seq<Condition>): (r: seq<Condition>)
    requires Flippable(tabName, conds)
    ensures |r| == |conds| && forall i :: 0 <= i < |conds| ==> r[i] == Flip(tabName, conds[i])
  {
    seq(|conds|, i requires 0 <= i < |conds| => Flip(tabName, conds[i]))
  }

  /** The constructor's loop: every condition turned to this table. */
  method FlipAll(tabName: string, conds: seq<Condition>) returns (r: seq<Condition>)
    requires Flippable(tabName, conds)
    ensures |r| == |conds| && forall i :: 0 <= i < |conds| ==> r[i] == Flip(tabName, conds[i])
  {
    r := [];
    var i := 0;
    while i < |conds|
      invariant 0 <= i <= |conds| && |r| == i
      invariant forall k :: 0 <= k < i ==> r[k] == Flip(tabName, conds[k])
    {
      r := r + [Flip(tabName, conds[i])];
      i := i + 1;
    }
  }

  // ---------------------------------------------------------------------
  // Key segments and their order.

  /** An index column the key builder handles: a 4-byte INT or a STRING. */
  predicate KeyColumn(col: ColMeta)
  {
    (col.colType == TypeInt && col.len == 4) || col.colType == TypeString
  }

  predicate KeyColumns(cols: seq<ColMeta>)
  {
    forall k :: 0 <= k < |cols| ==> KeyColumn(cols[k])
  }

  /** A key as segments: one per index column, each of the column's length. */
  predicate Segs(cols: seq<ColMeta>, x: seq<seq<byte>>)
  {
    |x| == |cols| && forall k :: 0 <= k < |cols| ==> |x[k]| == cols[k].len
  }

  /** ix_compare on one column: an INT by its value, a STRING by its bytes. */
  predicate SegLess(col: ColMeta, a: seq<byte>, b: seq<byte>)
    requires KeyColumn(col) && |a| == col.len && |b| == col.len
  {
    if col.colType == TypeInt then ReadInt32(a) < ReadInt32(b) else LexLess(a, b)
  }

  /** setMaxKey: INT32_MAX's bytes for an INT, 0xff bytes for a STRING. */
  function MaxSeg(col: ColMeta): (s: seq<byte>)
    requires KeyColumn(col)
    ensures |s| == col.len
  {
    if col.colType == TypeInt then Int32Bytes(INT_MAX) else seq(col.len, _ => 255)
  }

  /** setMinKey: INT32_MIN's bytes for an INT, 0x00 bytes for a STRING. */
  function MinSeg(col: ColMeta): (s: seq<byte>)
    requires KeyColumn(col)
    ensures |s| == col.len
  {
    if col.colType == TypeInt then Int32Bytes(INT_MIN) else seq(col.len, _ => 0)
  }

  lemma {:induction false} NothingBelowZeros(f: seq<byte>, z: seq<byte>)
    requires |f| == |z| && forall k :: 0 <= k < |z| ==> z[k] == 0
    ensures !LexLess(f, z)
    decreases |f|
  {
    if f != [] && f[0] == z[0] {
      NothingBelowZeros(f[1..], z[1..]);
    }
  }

  lemma {:induction false} NothingAboveOnes(f: seq<byte>, m: seq<byte>)
    requires |f| == |m| && forall k :: 0 <= k < |m| ==> m[k] == 255
    ensures !LexLess(m, f)
    decreases |f|
  {
    if f != [] && f[0] == m[0] {
      NothingAboveOnes(f[1..], m[1..]);
    }
  }

  /** The sentinels bound every segment: nothing is below the minimum or above the maximum. */
  lemma SentinelsBound(col: ColMeta, f: seq<byte>)
    requires KeyColumn(col) && |f| == col.len
    ensures !SegLess(col, f, MinSeg(col)) && !SegLess(col, MaxSeg(col), f)
  {
    if col.colType == TypeInt {
      ReadInt32Range(f);
      ReadInt32Bytes(INT_MIN);
      ReadInt32Bytes(INT_MAX);
    } else {
      NothingBelowZeros(f, MinSeg(col));
      NothingAboveOnes(f, MaxSeg(col));
    }
  }

  /** The order on one column is a strict weak order in which equivalent STRING segments are equal. */
  lemma SegOrder(col: ColMeta, a: seq<byte>, b: seq<byte>, c: seq<byte>)
    requires KeyColumn(col) && |a| == col.len && |b| == col.len && |c| == col.len
    ensures !SegLess(col, a, a)
    ensures SegLess(col, a, b) ==> !SegLess(col, b, a)
    ensures SegLess(col, a, b) && !SegLess(col, c, b) ==> SegLess(col, a, c)
    ensures !SegLess(col, b, a) && SegLess(col, b, c) ==> SegLess(col, a, c)
    ensures !SegLess(col, b, a) && !SegLess(col, c, b) ==> !SegLess(col, c, a)
  {
    if col.colType != TypeInt {
      LexLessIrreflexive(a);
      LexLessTotal(a, b);
      LexLessTotal(b, c);
      if LexLess(a, b) && LexLess(b, a) {
        LexLessTransitive(a, b, a);
      }
      if LexLess(a, b) && LexLess(b, c) {
        LexLessTransitive(a, b, c);
      }
      if LexLess(c, b) && LexLess(b, a) {
        LexLessTransitive(c, b, a);
      }
      if !LexLess(b, a) && !LexLess(c, b) && LexLess(c, a) {
        LexLessIrreflexive(c);
        if LexLess(a, b) && LexLess(b, c) {
          LexLessTransitive(a, b, c);
          LexLessTransitive(c, a, c);
        } else if LexLess(a, b) {
          LexLessTransitive(c, a, b);
        } else if LexLess(b, c) {
          LexLessTransitive(b, c, a);
        }
      }
    }
  }

  /**
   * ix_compare on whole keys from segment k on: the first segment that
   * differs decides, -1 when x is below y, 1 when above, 0 when none does.
   */
  function KeyCmp(cols: seq<ColMeta>, x: seq<seq<byte>>, y: seq<seq<byte>>, k: nat): (c: int)
    requires KeyColumns(cols) && Segs(cols, x) && Segs(cols, y) && k <= |cols|
    ensures -1 <= c <= 1
    decreases |cols| - k
  {
    if k == |cols| then 0
    else if SegLess(cols[k], x[k], y[k]) then -1
    else if SegLess(cols[k], y[k], x[k]) then 1
    else KeyCmp(cols, x, y, k + 1)
  }

  /** Exchanging the keys negates the comparison. */
  lemma {:induction false} KeyCmpAntisymmetric(cols: seq<ColMeta>, x: seq<seq<byte>>, y: seq<seq<byte>>, k: nat)
    requires KeyColumns(cols) && Segs(cols, x) && Segs(cols, y) && k <= |cols|
    ensures KeyCmp(cols, y, x, k) == -KeyCmp(cols, x, y, k)
    decreases |cols| - k
  {
    if k < |cols| {
      SegOrder(cols[k], x[k], y[k], y[k]);
      if !SegLess(cols[k], x[k], y[k]) && !SegLess(cols[k], y[k], x[k]) {
        KeyCmpAntisymmetric(cols, x, y, k + 1);
      }
    }
  }

  /** "At most" on keys is transitive. */
  lemma {:induction false} KeyCmpTransitive(cols: seq<ColMeta>, x: seq<seq<byte>>, y: seq<seq<byte>>, z: seq<seq<byte>>, k: nat)
    requires KeyColumns(cols) && Segs(cols, x) && Segs(cols, y) && Segs(cols, z) && k <= |cols|
    requires KeyCmp(cols, x, y, k) <= 0 && KeyCmp(cols, y, z, k) <= 0
    ensures KeyCmp(cols, x, z, k) <= 0
    decreases |cols| - k
  {
    if k < |cols| {
      SegOrder(cols[k], x[k], y[k], z[k]);
      if !SegLess(cols[k], x[k], y[k]) && !SegLess(cols[k], y[k], z[k]) {
        SegOrder(cols[k], z[k], y[k], x[k]);
        KeyCmpTransitive(cols, x, y, z, k + 1);
      }
    }
  }

  /** A key at most another in every segment is at most it as a whole. */
  lemma {:induction false} KeyCmpBySegments(cols: seq<ColMeta>, x: seq<seq<byte>>, y: seq<seq<byte>>, k: nat)
    requires KeyColumns(cols) && Segs(cols, x) && Segs(cols, y) && k <= |cols|
    requires forall m :: k <= m < |cols| ==> !SegLess(cols[m], y[m], x[m])
    ensures KeyCmp(cols, x, y, k) <= 0
    decreases |cols| - k
  {
    if k < |cols| && !SegLess(cols[k], x[k], y[k]) {
      KeyCmpBySegments(cols, x, y, k + 1);
    }
  }

  /** Every index column lies inside the record. */
  predicate RecFits(cols: seq<ColMeta>, rec: seq<byte>)
  {
    forall k :: 0 <= k < |cols| ==> Fits(cols[k], rec)
  }

  /** A record's key: the bytes of each index column. */
  function RecKey(cols: seq<ColMeta>, rec: seq<byte>): (x: seq<seq<byte>>)
    requires RecFits(cols, rec)
    ensures Segs(cols, x) && forall k :: 0 <= k < |cols| ==> x[k] == FieldOf(cols[k], rec)
  {
    seq(|cols|, k requires 0 <= k < |cols| => FieldOf(cols[k], rec))
  }

  // ---------------------------------------------------------------------
  // The bounds the conditions give.

  predicate OnCol(cond: Condition, col: ColMeta)
  {
    cond.lhsCol.colName == col.name
  }

  /**
   * A condition on an index column whose value can be copied into a key:
   * a literal of the column's type holding exactly the column's bytes (for
   * an INT, the bytes of its int_val).
   */
  predicate KeyLiteral(col: ColMeta, cond: Condition, lhsCol: ColMeta)
  {
    && lhsCol == col
    && cond.isRhsVal && cond.rhsVal.litType == col.colType && |cond.rhsVal.raw| == col.len
    && (col.colType == TypeInt ==> |cond.rhsVal.raw| >= 4 && ReadInt32(cond.rhsVal.raw) == cond.rhsVal.num)
  }

  /**
   * What beginTuple's key building expects of its inputs: key columns, and
   * every condition on an index column a key literal for that column.
   */
  predicate KeyReady(ixCols: seq<ColMeta>, conds: seq<Condition>, lhsCols: seq<ColMeta>)
  {
    && KeyColumns(ixCols) && |conds| == |lhsCols|
    && forall j, k :: 0 <= j < |conds| && 0 <= k < |ixCols| && OnCol(conds[j], ixCols[k]) ==>
         KeyLiteral(ixCols[k], conds[j], lhsCols[j])
  }

  /** Condition j bounds column k from below with seg: an = , > or >= on it, seg its value. */
  predicate LowerBy(ixCols: seq<ColMeta>, conds: seq<Condition>, k: int, j: int, seg: seq<byte>)
    requires 0 <= k < |ixCols| && 0 <= j < |conds|
  {
    OnCol(conds[j], ixCols[k]) && conds[j].op in {OpEq, OpGt, OpGe} && seg == conds[j].rhsVal.raw
  }

  /** Condition j bounds column k from above with seg: an = , < or <= on it, seg its value. */
  predicate UpperBy(ixCols: seq<ColMeta>, conds: seq<Condition>, k: int, j: int, seg: seq<byte>)
    requires 0 <= k < |ixCols| && 0 <= j < |conds|
  {
    OnCol(conds[j], ixCols[k]) && conds[j].op in {OpEq, OpLt, OpLe} && seg == conds[j].rhsVal.raw
  }

  /** A min_key segment: setMinKey's sentinel or the value of a condition bounding the column from below. */
  predicate LowSeg(ixCols: seq<ColMeta>, conds: seq<Condition>, k: int, seg: seq<byte>)
    requires KeyColumns(ixCols) && 0 <= k < |ixCols|
  {
    seg == MinSeg(ixCols[k]) || exists j :: 0 <= j < |conds| && LowerBy(ixCols, conds, k, j, seg)
  }

  /** A max_key segment: setMaxKey's sentinel or the value of a condition bounding the column from above. */
  predicate HighSeg(ixCols: seq<ColMeta>, conds: seq<Condition>, k: int, seg: seq<byte>)
    requires KeyColumns(ixCols) && 0 <= k < |ixCols|
  {
    seg == MaxSeg(ixCols[k]) || exists j :: 0 <= j < |conds| && UpperBy(ixCols, conds, k, j, seg)
  }

  /** Keys every segment of which is a bound the conditions give. */
  predicate Bounds(ixCols: seq<ColMeta>, conds: seq<Condition>, lo: seq<seq<byte>>, hi: seq<seq<byte>>)
    requires KeyColumns(ixCols)
  {
    && Segs(ixCols, lo) && Segs(ixCols, hi)
    && forall k :: 0 <= k < |ixCols| ==> LowSeg(ixCols, conds, k, lo[k]) && HighSeg(ixCols, conds, k, hi[k])
  }

  /** A record satisfying a condition that bounds its column from below is not below the bound. */
  lemma LowerBoundHolds(col: ColMeta, cond: Condition, rec: seq<byte>)
    requires KeyColumn(col) && KeyLiteral(col, cond, col) && Evaluable(col, cond, rec)
    requires cond.op in {OpEq, OpGt, OpGe} && CondHolds(col, cond, rec)
    ensures !SegLess(col, FieldOf(col, rec), cond.rhsVal.raw)
  {
    var f := FieldOf(col, rec);
    if col.colType != TypeInt {
      SegOrder(col, f, cond.rhsVal.raw, f);
    }
  }

  /** A record satisfying a condition that bounds its column from above is not above the bound. */
  lemma UpperBoundHolds(col: ColMeta, cond: Condition, rec: seq<byte>)
    requires KeyColumn(col) && KeyLiteral(col, cond, col) && Evaluable(col, cond, rec)
    requires cond.op in {OpEq, OpLt, OpLe} && CondHolds(col, cond, rec)
    ensures !SegLess(col, cond.rhsVal.raw, FieldOf(col, rec))
  {
    var f := FieldOf(col, rec);
    if col.colType != TypeInt {
      SegOrder(col, f, cond.rhsVal.raw, f);
    }
  }

  /**
   * The range is sound: a record that satisfies every condition has its
   * key between any min_key and max_key built from the conditions' bounds,
   * so the index scan between the two keys misses no such record.
   */
  lemma RangeSound(ixCols: seq<ColMeta>, conds: seq<Condition>, lhsCols: seq<ColMeta>,
                   lo: seq<seq<byte>>, hi: seq<seq<byte>>, rec: seq<byte>)
    requires KeyReady(ixCols, conds, lhsCols) && Bounds(ixCols, conds, lo, hi) && RecFits(ixCols, rec)
    requires forall j :: 0 <= j < |conds| ==> Evaluable(lhsCols[j], conds[j], rec)
    requires AllHold(conds, lhsCols, rec)
    ensures KeyCmp(ixCols, lo, RecKey(ixCols, rec), 0) <= 0
    ensures KeyCmp(ixCols, RecKey(ixCols, rec), hi, 0) <= 0
  {
    var x := RecKey(ixCols, rec);
    forall k | 0 <= k < |ixCols|
      ensures !SegLess(ixCols[k], x[k], lo[k]) && !SegLess(ixCols[k], hi[k], x[k])
    {
      SentinelsBound(ixCols[k], x[k]);
      if lo[k] != MinSeg(ixCols[k]) {
        var j :| 0 <= j < |conds| && LowerBy(ixCols, conds, k, j, lo[k]);
        assert CondHolds(lhsCols[j], conds[j], rec);
        LowerBoundHolds(ixCols[k], conds[j], rec);
      }
      if hi[k] != MaxSeg(ixCols[k]) {
        var j :| 0 <= j < |conds| && UpperBy(ixCols, conds, k, j, hi[k]);
        assert CondHolds(lhsCols[j], conds[j], rec);
        UpperBoundHolds(ixCols[k], conds[j], rec);
      }
    }
    KeyCmpBySegments(ixCols, lo, x, 0);
    KeyCmpBySegments(ixCols, x, hi, 0);
  }

  // ---------------------------------------------------------------------
  // Building min_key and max_key (beginTuple).

  /**
   * The inner loop of beginTuple for index column i: the conditions on the
   * column from cond_j on. An = copies its value into both keys and skips
   * the column's other conditions; the first < or <= sets the max_key
   * segment and a later one replaces it when smaller; the first > or >=
   * sets the min_key segment and a later one replaces it when it is above
   * the max_key segment (the code compares with max_key there, line 252);
   * a != sets nothing.
   */
  method ColumnBounds(ixCols: seq<ColMeta>, conds: seq<Condition>, lhsCols: seq<ColMeta>,
                      i: nat, j0: nat, lo0: seq<byte>, hi0: seq<byte>)
    returns (j: nat, lo: seq<byte>, hi: seq<byte>, equSet: bool, minSet: bool, maxSet: bool)
    requires KeyReady(ixCols, conds, lhsCols) && i < |ixCols| && j0 <= |conds|
    requires |lo0| == ixCols[i].len && |hi0| == ixCols[i].len
    ensures j0 <= j <= |conds| && |lo| == ixCols[i].len && |hi| == ixCols[i].len
    ensures forall m :: j0 <= m < j ==> OnCol(conds[m], ixCols[i])
    ensures j < |conds| ==> !OnCol(conds[j], ixCols[i])
    ensures equSet ==> lo == hi
    ensures equSet || minSet ==> exists m :: 0 <= m < |conds| && LowerBy(ixCols, conds, i, m, lo)
    ensures equSet || maxSet ==> exists m :: 0 <= m < |conds| && UpperBy(ixCols, conds, i, m, hi)
    ensures !equSet && !minSet ==> lo == lo0
    ensures !equSet && !maxSet ==> hi == hi0
    ensures (j0 == |conds| || !OnCol(conds[j0], ixCols[i])) ==> j == j0 && !equSet && !minSet && !maxSet
  {
    j, lo, hi := j0, lo0, hi0;
    equSet, minSet, maxSet := false, false, false;
    while j < |conds| && OnCol(conds[j], ixCols[i])
      invariant j0 <= j <= |conds| && |lo| == ixCols[i].len && |hi| == ixCols[i].len
      invariant forall m :: j0 <= m < j ==> OnCol(conds[m], ixCols[i])
      invariant equSet ==> lo == hi && !(j < |conds| && OnCol(conds[j], ixCols[i]))
      invariant equSet || minSet ==> exists m :: 0 <= m < |conds| && LowerBy(ixCols, conds, i, m, lo)
      invariant equSet || maxSet ==> exists m :: 0 <= m < |conds| && UpperBy(ixCols, conds, i, m, hi)
      invariant !equSet && !minSet ==> lo == lo0
      invariant !equSet && !maxSet ==> hi == hi0
      invariant j == j0 ==> !equSet && !minSet && !maxSet
      decreases |conds| - j
    {
      var raw := conds[j].rhsVal.raw;
      if conds[j].op == OpEq {
        lo, hi, equSet := raw, raw, true;
        assert LowerBy(ixCols, conds, i, j, lo) && UpperBy(ixCols, conds, i, j, hi);
        var first := j;
        while j < |conds| && OnCol(conds[j], ixCols[i])
          invariant first <= j <= |conds|
          invariant forall m :: j0 <= m < j ==> OnCol(conds[m], ixCols[i])
          decreases |conds| - j
        {
          j := j + 1;
        }
        j := j - 1;
      } else if conds[j].op == OpLt || conds[j].op == OpLe {
        if !maxSet {
          hi, maxSet := raw, true;
          assert UpperBy(ixCols, conds, i, j, hi);
        } else if SegLess(ixCols[i], raw, hi) {
          hi := raw;
          assert UpperBy(ixCols, conds, i, j, hi);
        }
      } else if conds[j].op == OpGt || conds[j].op == OpGe {
        if !minSet {
          lo, minSet := raw, true;
          assert LowerBy(ixCols, conds, i, j, lo);
        } else if SegLess(ixCols[i], hi, raw) {
          lo := raw;
          assert LowerBy(ixCols, conds, i, j, lo);
        }
      }
      j := j + 1;
    }
  }

  /** The `while (i < col_num)` loops: every column from `from` on gets both sentinels. */
  method FillSentinels(ixCols: seq<ColMeta>, from: nat, lo0: seq<seq<byte>>, hi0: seq<seq<byte>>)
    returns (lo: seq<seq<byte>>, hi: seq<seq<byte>>)
    requires KeyColumns(ixCols) && Segs(ixCols, lo0) && Segs(ixCols, hi0) && from <= |ixCols|
    ensures Segs(ixCols, lo) && Segs(ixCols, hi)
    ensures forall k :: 0 <= k < from ==> lo[k] == lo0[k] && hi[k] == hi0[k]
    ensures forall k :: from <= k < |ixCols| ==> lo[k] == MinSeg(ixCols[k]) && hi[k] == MaxSeg(ixCols[k])
  {
    lo, hi := lo0, hi0;
    var i := from;
    while i < |ixCols|
      invariant from <= i <= |ixCols| && Segs(ixCols, lo) && Segs(ixCols, hi)
      invariant forall k :: 0 <= k < from ==> lo[k] == lo0[k] && hi[k] == hi0[k]
      invariant forall k :: from <= k < i ==> lo[k] == MinSeg(ixCols[k]) && hi[k] == MaxSeg(ixCols[k])
    {
      hi := hi[i := MaxSeg(ixCols[i])];
      lo := lo[i := MinSeg(ixCols[i])];
      i := i + 1;
    }
  }

  /** No condition is on index column k. */
  predicate Unconstrained(ixCols: seq<ColMeta>, conds: seq<Condition>, k: int)
    requires 0 <= k < |ixCols|
  {
    forall m :: 0 <= m < |conds| ==> !OnCol(conds[m], ixCols[k])
  }

  /**
   * beginTuple's key building: column by column, the bounds the conditions
   * on it give; at the first column lacking an = and one of the two
   * bounds, the missing bound becomes a sentinel and every later column
   * gets both sentinels. minInit and maxInit are the buffers' contents
   * before (new char[] leaves them uninitialised). Every segment of the
   * result is a sentinel or a bound some condition gives, and a column no
   * condition is on spans its whole range.
   */
  method BuildRange(ixCols: seq<ColMeta>, conds: seq<Condition>, lhsCols: seq<ColMeta>,
                    minInit: seq<seq<byte>>, maxInit: seq<seq<byte>>)
    returns (lo: seq<seq<byte>>, hi: seq<seq<byte>>)
    requires KeyReady(ixCols, conds, lhsCols) && Segs(ixCols, minInit) && Segs(ixCols, maxInit)
    ensures Bounds(ixCols, conds, lo, hi)
    ensures forall k :: 0 <= k < |ixCols| && Unconstrained(ixCols, conds, k) ==>
      lo[k] == MinSeg(ixCols[k]) && hi[k] == MaxSeg(ixCols[k])
  {
    lo, hi := minInit, maxInit;
    var i := 0;
    var j := 0;
    while i < |ixCols|
      invariant 0 <= i <= |ixCols| && j <= |conds| && Segs(ixCols, lo) && Segs(ixCols, hi)
      invariant forall k :: 0 <= k < i ==> LowSeg(ixCols, conds, k, lo[k]) && HighSeg(ixCols, conds, k, hi[k])
      invariant forall k :: 0 <= k < i && Unconstrained(ixCols, conds, k) ==>
        lo[k] == MinSeg(ixCols[k]) && hi[k] == MaxSeg(ixCols[k])
      decreases |ixCols| - i
    {
      var jn, l, h, equSet, minSet, maxSet := ColumnBounds(ixCols, conds, lhsCols, i, j, lo[i], hi[i]);
      j := jn;
      if equSet {
        lo, hi := lo[i := l], hi[i := h];
        i := i + 1;
      } else if !maxSet && !minSet {
        hi, lo := hi[i := MaxSeg(ixCols[i])], lo[i := MinSeg(ixCols[i])];
        lo, hi := FillSentinels(ixCols, i + 1, lo, hi);
        i := |ixCols|;
      } else if !maxSet {
        hi, lo := hi[i := MaxSeg(ixCols[i])], lo[i := l];
        lo, hi := FillSentinels(ixCols, i + 1, lo, hi);
        i := |ixCols|;
      } else if !minSet {
        hi, lo := hi[i := h], lo[i := MinSeg(ixCols[i])];
        lo, hi := FillSentinels(ixCols, i + 1, lo, hi);
        i := |ixCols|;
      } else {
        lo, hi := lo[i := l], hi[i := h];
        i := i + 1;
      }
    }
  }

  // ---------------------------------------------------------------------
  // The index's entries between the keys.

  /** Every record holds every index column. */
  predicate AllRecFit(ixCols: seq<ColMeta>, recs: seq<seq<byte>>)
  {
    forall p :: 0 <= p < |recs| ==> RecFits(ixCols, recs[p])
  }

  /** The records in the order of their keys in the index. */
  predicate KeySorted(ixCols: seq<ColMeta>, recs: seq<seq<byte>>)
    requires KeyColumns(ixCols) && AllRecFit(ixCols, recs)
  {
    forall p, q :: 0 <= p < q < |recs| ==> KeyCmp(ixCols, RecKey(ixCols, recs[p]), RecKey(ixCols, recs[q]), 0) <= 0
  }

  /** lower_bound(min_key): the first position from `from` whose key is not below lo. */
  function LowerPos(ixCols: seq<ColMeta>, recs: seq<seq<byte>>, lo: seq<seq<byte>>, from: nat): (p: nat)
    requires KeyColumns(ixCols) && AllRecFit(ixCols, recs) && Segs(ixCols, lo) && from <= |recs|
    ensures from <= p <= |recs|
    ensures p < |recs| ==> KeyCmp(ixCols, RecKey(ixCols, recs[p]), lo, 0) >= 0
    ensures forall q :: from <= q < p ==> KeyCmp(ixCols, RecKey(ixCols, recs[q]), lo, 0) < 0
    decreases |recs| - from
  {
    if from == |recs| || KeyCmp(ixCols, RecKey(ixCols, recs[from]), lo, 0) >= 0 then from
    else LowerPos(ixCols, recs, lo, from + 1)
  }

  /** upper_bound(max_key): the first position from `from` whose key is above hi. */
  function UpperPos(ixCols: seq<ColMeta>, recs: seq<seq<byte>>, hi: seq<seq<byte>>, from: nat): (p: nat)
    requires KeyColumns(ixCols) && AllRecFit(ixCols, recs) && Segs(ixCols, hi) && from <= |recs|
    ensures from <= p <= |recs|
    ensures p < |recs| ==> KeyCmp(ixCols, RecKey(ixCols, recs[p]), hi, 0) > 0
    ensures forall q :: from <= q < p ==> KeyCmp(ixCols, RecKey(ixCols, recs[q]), hi, 0) <= 0
    decreases |recs| - from
  {
    if from == |recs| || KeyCmp(ixCols, RecKey(ixCols, recs[from]), hi, 0) > 0 then from
    else UpperPos(ixCols, recs, hi, from + 1)
  }

  /** In sorted records, a record whose key lies between lo and hi lies between lower_bound and upper_bound. */
  lemma BetweenBounds(ixCols: seq<ColMeta>, recs: seq<seq<byte>>, lo: seq<seq<byte>>, hi: seq<seq<byte>>, p: nat)
    requires KeyColumns(ixCols) && AllRecFit(ixCols, recs) && KeySorted(ixCols, recs)
    requires Segs(ixCols, lo) && Segs(ixCols, hi) && p < |recs|
    requires KeyCmp(ixCols, lo, RecKey(ixCols, recs[p]), 0) <= 0 && KeyCmp(ixCols, RecKey(ixCols, recs[p]), hi, 0) <= 0
    ensures LowerPos(ixCols, recs, lo, 0) <= p < UpperPos(ixCols, recs, hi, 0)
  {
    var x := RecKey(ixCols, recs[p]);
    KeyCmpAntisymmetric(ixCols, lo, x, 0);
    var u := UpperPos(ixCols, recs, hi, 0);
    if u <= p {
      var y := RecKey(ixCols, recs[u]);
      if u < p {
        assert KeyCmp(ixCols, y, x, 0) <= 0;
        KeyCmpTransitive(ixCols, y, x, hi, 0);
      }
    }
  }

  /**
   * The index scan misses nothing: for keys built from the conditions'
   * bounds, every record satisfying all conditions lies between
   * lower_bound(min_key) and upper_bound(max_key).
   */
  lemma MatchesInWindow(ixCols: seq<ColMeta>, conds: seq<Condition>, lhsCols: seq<ColMeta>,
                        recs: seq<seq<byte>>, lo: seq<seq<byte>>, hi: seq<seq<byte>>)
    requires KeyReady(ixCols, conds, lhsCols) && Bounds(ixCols, conds, lo, hi)
    requires AllRecFit(ixCols, recs) && KeySorted(ixCols, recs) && Evaluates(conds, lhsCols, recs)
    ensures forall p :: 0 <= p < |recs| && AllHold(conds, lhsCols, recs[p]) ==>
      LowerPos(ixCols, recs, lo, 0) <= p < UpperPos(ixCols, recs, hi, 0)
  {
    forall p | 0 <= p < |recs| && AllHold(conds, lhsCols, recs[p])
      ensures LowerPos(ixCols, recs, lo, 0) <= p < UpperPos(ixCols, recs, hi, 0)
    {
      RangeSound(ixCols, conds, lhsCols, lo, hi, recs[p]);
      BetweenBounds(ixCols, recs, lo, hi, p);
    }
  }

  /**
   * Where the scan stops, with every match before `end`: the first match
   * from `from`, or `end` when there is none.
   */
  function StopAt(conds: seq<Condition>, lhsCols: seq<ColMeta>, recs: seq<seq<byte>>, from: nat, end: nat): (p: nat)
    requires Evaluates(conds, lhsCols, recs) && from <= |recs| && end <= |recs|
  {
    var m := FirstMatch(conds, lhsCols, recs, from);
    if m == |recs| then end else m
  }

  class IndexScanExecutor {
    const fd: int
    const tabName: string
    const cols: seq<ColMeta>
    const len: nat
    /** The conditions, each turned to this table. */
    const conds: seq<Condition>
    const lhsCols: seq<ColMeta>
    /** index_meta_.cols: the index's columns, in key order. */
    const ixCols: seq<ColMeta>
    /** The table's records in the order of their index keys (each entry's rid resolved by get_record). */
    const ixRecs: seq<seq<byte>>
    /** The scan's current entry. */
    var pos: nat
    /** The entry upper_bound(max_key) gives, where the scan ends. */
    var end: nat

    /**
     * The cursor is at the end or at a matching record, and every
     * matching record lies before the end.
     */
    ghost predicate Valid()
      reads this
    {
      && Evaluates(conds, lhsCols, ixRecs) && KeyReady(ixCols, conds, lhsCols)
      && AllRecFit(ixCols, ixRecs) && KeySorted(ixCols, ixRecs)
      && pos <= end <= |ixRecs|
      && (pos < end ==> AllHold(conds, lhsCols, ixRecs[pos]))
      && (forall p :: 0 <= p < |ixRecs| && AllHold(conds, lhsCols, ixRecs[p]) ==> p < end)
    }

    /**
     * The constructor: the conditions turned to this table, the table's
     * columns, the record length and each condition's column.
     */
    constructor(tab: TabMeta, fd: int, conds: seq<Condition>, ixCols: seq<ColMeta>, ixRecs: seq<seq<byte>>)
      requires |tab.cols| > 0 && Flippable(tab.name, conds)
      requires var fc := Flipped(tab.name, conds);
        && LhsCols(tab.cols, fc).Ok?
        && Evaluates(fc, LhsCols(tab.cols, fc).value, ixRecs)
        && KeyReady(ixCols, fc, LhsCols(tab.cols, fc).value)
      requires AllRecFit(ixCols, ixRecs) && KeySorted(ixCols, ixRecs)
      ensures Valid() && this.fd == fd && tabName == tab.name && cols == tab.cols
      ensures this.ixCols == ixCols && this.ixRecs == ixRecs && pos == |ixRecs| && end == |ixRecs|
      ensures this.conds == Flipped(tab.name, conds) && lhsCols == LhsCols(tab.cols, this.conds).value
      ensures len == tab.cols[|tab.cols| - 1].offset + tab.cols[|tab.cols| - 1].len
    {
      this.fd := fd;
      tabName := tab.name;
      cols := tab.cols;
      len := tab.cols[|tab.cols| - 1].offset + tab.cols[|tab.cols| - 1].len;
      this.ixCols := ixCols;
      this.ixRecs := ixRecs;
      var fc := FlipAll(tab.name, conds);
      assert fc == Flipped(tab.name, conds);
      this.conds := fc;
      lhsCols := LhsCols(tab.cols, fc).value;
      pos := |ixRecs|;
      end := |ixRecs|;
    }

    predicate IsEnd()
      reads this
    {
      pos == end
    }

    /** Next: the record of the current entry, which satisfies every condition. */
    function Next(): (rec: seq<byte>)
      reads this
      requires Valid() && pos < end
      ensures rec == ixRecs[pos] && AllHold(conds, lhsCols, rec)
    {
      ixRecs[pos]
    }

    /** The scan loop: on from the cursor, past every entry whose record fails a condition. */
    method SkipFailing()
      requires Evaluates(conds, lhsCols, ixRecs) && pos <= end <= |ixRecs|
      requires forall p :: 0 <= p < |ixRecs| && AllHold(conds, lhsCols, ixRecs[p]) ==> p < end
      modifies this`pos
      ensures pos == StopAt(conds, lhsCols, ixRecs, old(pos), end)
      ensures pos <= end && (pos < end ==> AllHold(conds, lhsCols, ixRecs[pos]))
    {
      ghost var start := pos;
      while pos < end
        invariant start <= pos <= end
        invariant forall k :: start <= k < pos ==> !AllHold(conds, lhsCols, ixRecs[k])
        decreases end - pos
      {
        var ok := CheckCond(conds, lhsCols, ixRecs[pos]);
        if ok {
          break;
        }
        pos := pos + 1;
      }
    }

    /**
     * beginTuple: a shared lock on the table, min_key and max_key from the
     * conditions, then the scan from lower_bound(min_key) to
     * upper_bound(max_key), stopping at the first entry that matches. It
     * stops exactly where a scan of the whole index would: at the first
     * matching record, or at the end when none matches.
     */
    method BeginTuple(lm: LockManager, txn: Transaction, minInit: seq<seq<byte>>, maxInit: seq<seq<byte>>)
      returns (r: Result<(), AbortReason>)
      requires Valid() && lm.Valid() && Segs(ixCols, minInit) && Segs(ixCols, maxInit)
      modifies this`pos, this`end, lm, txn
      ensures Valid() && lm.Valid()
      ensures r.Ok? ==> TableId(fd) in lm.lockTable && Holds(lm.lockTable[TableId(fd)].requests, txn.id, Shared)
      ensures r.Ok? ==> pos == StopAt(conds, lhsCols, ixRecs, 0, end)
      ensures r.Err? ==> pos == old(pos) && end == old(end) && r.error in {LockOnShrinking, UpgradeConflict, DeadlockPrevention}
    {
      var l := lm.Lock(txn, TableId(fd), Shared);
      if l.Err? {
        return Err(l.error);
      }
      StartScan(minInit, maxInit);
      return Ok(());
    }

    /**
     * The rest of beginTuple: min_key and max_key, the positions
     * lower_bound and upper_bound give (an empty range when they cross),
     * and the first matching entry from the lower one.
     */
    method StartScan(minInit: seq<seq<byte>>, maxInit: seq<seq<byte>>)
      requires Valid() && Segs(ixCols, minInit) && Segs(ixCols, maxInit)
      modifies this`pos, this`end
      ensures Valid() && pos == StopAt(conds, lhsCols, ixRecs, 0, end)
    {
      var lo, hi := BuildRange(ixCols, conds, lhsCols, minInit, maxInit);
      MatchesInWindow(ixCols, conds, lhsCols, ixRecs, lo, hi);
      var lower := LowerPos(ixCols, ixRecs, lo, 0);
      var upper := UpperPos(ixCols, ixRecs, hi, 0);
      end := if lower <= upper then upper else lower;
      pos := lower;
      SkipFailing();
    }

    /** nextTuple: step past the current entry, then on to the next one that matches. */
    method NextTuple()
      requires Valid() && pos < end
      modifies this`pos
      ensures Valid() && pos == StopAt(conds, lhsCols, ixRecs, old(pos) + 1, end)
    {
      pos := pos + 1;
      SkipFailing();
    }
  }
}
