// Conditions as the scans evaluate them against a record: the compare
// template and check_cond of src/execution/executor_seq_scan.h (the index
// scan carries a copy of both), and the operator mirroring swap_op of
// src/execution/executor_index_scan.h. A condition compares a column of the
// record with a literal; the literal's number is its int_val or bigint_val
// and its bytes are its raw buffer (getString).
module Conditions {
  import opened Wrappers
  import opened Errors
  import opened Values
  import opened Catalog
  import opened ExecManager

  /** compare(a, b, op) on integers. */
  function CompareInt(a: int, b: int, op: CompOp): bool
  {
    match op
    case OpEq => a == b
    case OpNe => a != b
    case OpLt => a < b
    case OpGt => a > b
    case OpLe => a <= b
    case OpGe => a >= b
  }

  /**
   * compare(a, b, op) on std::string: equality of the bytes, and the
   * relational operators by lexicographic order of the bytes read as
   * unsigned (a <= b is !(b < a), a >= b is !(a < b)).
   */
  function CompareBytes(a: seq<byte>, b: seq<byte>, op: CompOp): bool
  {
    match op
    case OpEq => a == b
    case OpNe => a != b
    case OpLt => LexLess(a, b)
    case OpGt => LexLess(b, a)
    case OpLe => !LexLess(b, a)
    case OpGe => !LexLess(a, b)
  }

  /**
   * The byte order is a total order: exactly one of <, == and > holds, and
   * <= and >= are < or ==, and > or ==.
   */
  lemma CompareBytesTrichotomy(a: seq<byte>, b: seq<byte>)
    ensures CompareBytes(a, b, OpLt) || CompareBytes(a, b, OpEq) || CompareBytes(a, b, OpGt)
    ensures !(CompareBytes(a, b, OpLt) && CompareBytes(a, b, OpGt))
    ensures CompareBytes(a, b, OpEq) ==> !CompareBytes(a, b, OpLt) && !CompareBytes(a, b, OpGt)
    ensures CompareBytes(a, b, OpLe) <==> CompareBytes(a, b, OpLt) || CompareBytes(a, b, OpEq)
    ensures CompareBytes(a, b, OpGe) <==> CompareBytes(a, b, OpGt) || CompareBytes(a, b, OpEq)
    ensures CompareBytes(a, b, OpNe) <==> !CompareBytes(a, b, OpEq)
  {
    LexLessTotal(a, b);
    LexLessIrreflexive(a);
    if LexLess(a, b) && LexLess(b, a) {
      LexLessTransitive(a, b, a);
    }
  }

  /**
   * swap_op: the operator that says the same thing with its operands
   * exchanged. EQ and NE stay, LT and GT trade places, so do LE and GE;
   * applying it twice gives the operator back.
   */
  function SwapOp(op: CompOp): (r: CompOp)
    ensures forall a: int, b: int {:trigger CompareInt(a, b, r)} :: CompareInt(a, b, r) == CompareInt(b, a, op)
    ensures forall a: seq<byte>, b: seq<byte> {:trigger CompareBytes(a, b, r)} :: CompareBytes(a, b, r) == CompareBytes(b, a, op)
    ensures r == OpEq <==> op == OpEq
    ensures r == OpNe <==> op == OpNe
  {
    match op
    case OpEq => OpEq
    case OpNe => OpNe
    case OpLt => OpGt
    case OpGt => OpLt
    case OpLe => OpGe
    case OpGe => OpLe
  }

  /** swap_op is an involution. */
  lemma SwapOpInvolution(op: CompOp)
    ensures SwapOp(SwapOp(op)) == op
  {
    match op
    case OpEq =>
    case OpNe =>
    case OpLt => assert SwapOp(op) == OpGt;
    case OpGt => assert SwapOp(op) == OpLt;
    case OpLe => assert SwapOp(op) == OpGe;
    case OpGe => assert SwapOp(op) == OpLe;
  }

  /**
   * The column and literal types check_cond compares exactly: the same
   * type (other than FLOAT), or an INT column against a BIGINT literal.
   */
  predicate Comparable(col: ColMeta, lit: Literal)
  {
    || (col.colType == lit.litType && col.colType != TypeFloat)
    || (col.colType == TypeInt && lit.litType == TypeBigint)
  }

  /** A condition check_cond can evaluate on a record: a literal right side of a comparable type, a column inside the record. */
  predicate Evaluable(col: ColMeta, cond: Condition, rec: seq<byte>)
  {
    cond.isRhsVal && Comparable(col, cond.rhsVal) && Fits(col, rec)
  }

  /**
   * One condition on a record, as the code is written: an INT column
   * compared with a BIGINT literal is read as `*(long long *)`, eight
   * bytes from the column's offset, so it needs eight bytes there.
   */
  function CondHoldsAsWritten(col: ColMeta, cond: Condition, rec: seq<byte>): bool
    requires Evaluable(col, cond, rec)
    requires col.colType == TypeInt && cond.rhsVal.litType == TypeBigint ==> col.offset + 8 <= |rec|
  {
    var lit := cond.rhsVal;
    if col.colType == TypeInt && lit.litType == TypeBigint then CompareInt(ReadInt64(rec[col.offset..]), lit.num, cond.op)
    else CondHolds(col, cond, rec)
  }

  /**
   * One condition on a record: an INT column is its 4-byte value, compared
   * with the literal's int_val or bigint_val; a BIGINT column its 8-byte
   * value; a STRING or DATETIME column its col.len bytes, compared with
   * the literal's bytes.
   */
  function CondHolds(col: ColMeta, cond: Condition, rec: seq<byte>): bool
    requires Evaluable(col, cond, rec)
  {
    var f := FieldOf(col, rec);
    match col.colType
    case TypeInt => CompareInt(ReadInt32(f), cond.rhsVal.num, cond.op)
    case TypeBigint => CompareInt(ReadInt64(f), cond.rhsVal.num, cond.op)
    case TypeString => CompareBytes(f, cond.rhsVal.raw, cond.op)
    case TypeDatetime => CompareBytes(f, cond.rhsVal.raw, cond.op)
    case TypeFloat => false
  }

  /** A condition on a column depends on that column's bytes alone. */
  lemma CondHoldsOnField(col: ColMeta, cond: Condition, r1: seq<byte>, r2: seq<byte>)
    requires Evaluable(col, cond, r1) && Evaluable(col, cond, r2)
    requires FieldOf(col, r1) == FieldOf(col, r2)
    ensures CondHolds(col, cond, r1) == CondHolds(col, cond, r2)
  {
  }

  /**
   * As written, an INT column compared with a BIGINT literal also reads
   * the next column: with a = 1 in both records and the next INT column 0
   * in one and 1 in the other, `a < 3000000000` holds for the first and
   * fails for the second; read as an int, a = 1 passes in both.
   */
  lemma AsWrittenReadsNextColumn(col: ColMeta, cond: Condition, r1: seq<byte>, r2: seq<byte>)
    requires col == ColMeta("t", "a", TypeInt, 4, 0, false)
    requires cond == Condition(TabCol("t", "a", "", NoAgg), OpLt, true, TabCol("", "", "", NoAgg), Literal(TypeBigint, 3000000000, []))
    requires r1 == [1, 0, 0, 0, 0, 0, 0, 0] && r2 == [1, 0, 0, 0, 1, 0, 0, 0]
    ensures FieldOf(col, r1) == FieldOf(col, r2)
    ensures CondHoldsAsWritten(col, cond, r1) && !CondHoldsAsWritten(col, cond, r2)
    ensures CondHolds(col, cond, r1) && CondHolds(col, cond, r2)
  {
    var one: seq<byte> := [1, 0, 0, 0];
    var zero: seq<byte> := [0, 0, 0, 0];
    assert FieldOf(col, r1) == one && FieldOf(col, r2) == one;
    assert Unsigned(zero) == 0 && Unsigned(one) == 1 by {
      assert zero[1..][1..][1..][1..] == [] && one[1..] == zero[1..];
    }
    assert one[..4] == one;
    assert r1[0..][..8] == one + zero && r2[0..][..8] == one + one;
    Pow256Widths();
    UnsignedAppend(one, zero);
    UnsignedAppend(one, one);
  }

  /**
   * check_cond: every condition holds for the record (true when there are
   * none). Conditions and their left-hand column metadata go in pairs.
   */
  predicate AllHold(conds: seq<Condition>, lhsCols: seq<ColMeta>, rec: seq<byte>)
    requires |conds| == |lhsCols|
    requires forall i :: 0 <= i < |conds| ==> Evaluable(lhsCols[i], conds[i], rec)
  {
    forall i :: 0 <= i < |conds| ==> CondHolds(lhsCols[i], conds[i], rec)
  }

  /** Every condition can be evaluated on every record. */
  predicate Evaluates(conds: seq<Condition>, lhsCols: seq<ColMeta>, recs: seq<seq<byte>>)
  {
    && |conds| == |lhsCols|
    && forall i, k :: 0 <= i < |conds| && 0 <= k < |recs| ==> Evaluable(lhsCols[i], conds[i], recs[k])
  }

  /**
   * The loop of check_cond: the conditions in turn, returning false at
   * the first one that fails and true when all hold.
   */
  method CheckCond(conds: seq<Condition>, lhsCols: seq<ColMeta>, rec: seq<byte>) returns (b: bool)
    requires |conds| == |lhsCols|
    requires forall i :: 0 <= i < |conds| ==> Evaluable(lhsCols[i], conds[i], rec)
    ensures b == AllHold(conds, lhsCols, rec)
    ensures !b ==> exists i :: 0 <= i < |conds| && !CondHolds(lhsCols[i], conds[i], rec)
  {
    var i := 0;
    while i < |conds|
      invariant 0 <= i <= |conds|
      invariant forall k :: 0 <= k < i ==> CondHolds(lhsCols[k], conds[k], rec)
    {
      if !CondHolds(lhsCols[i], conds[i], rec) {
        return false;
      }
      i := i + 1;
    }
    return true;
  }

  /**
   * The left-hand column metadata of each condition (tab.get_col of its
   * column name); ColumnNotFoundError when one is not a column of the table.
   */
  function LhsCols(cols: seq<ColMeta>, conds: seq<Condition>): (r: Result<seq<ColMeta>, DbError>)
    ensures r.Ok? ==> |r.value| == |conds|
    ensures r.Ok? ==> forall i :: 0 <= i < |conds| ==> r.value[i] in cols && r.value[i].name == conds[i].lhsCol.colName
    ensures r.Err? <==> exists i :: 0 <= i < |conds| && FindCol(cols, conds[i].lhsCol.colName).Err?
    ensures r.Err? ==> r.error == ColumnNotFound
    decreases |conds|
  {
    if conds == [] then Ok([])
    else
      var n := |conds| - 1;
      var init := conds[..n];
      assert forall i :: 0 <= i < n ==> init[i] == conds[i];
      match LhsCols(cols, init)
      case Err(e) => Err(e)
      case Ok(front) =>
        match FindCol(cols, conds[n].lhsCol.colName)
        case Err(e) => Err(e)
        case Ok(c) => Ok(front + [c])
  }
}
