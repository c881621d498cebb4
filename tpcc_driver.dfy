// The five TPC-C transactions of the benchmark client's driver, as the
// statements they send. Each statement is the call the driver makes into the
// SQL layer (`select`, `insert`, `update`, `delete`, or a bare BEGIN or
// COMMIT); its text is what `Render` gives for it. The server is a
// parameter: `server(k)` is its reply to the k-th statement of the
// transaction, BEGIN being statement 0.
//
// Every read whose column argument is a tuple raises TypeError inside
// `select` before anything is sent, and the driver's `except` branch then
// supplies default values; those reads send nothing, and the defaults flow
// into the later statements.
module TpccDriver {
  import opened Wrappers
  import opened PyStr
  import opened SqlClient
  import opened TpccSchema

  // ---------------------------------------------------------------------------
  // Statements

  /** A Python value the driver hands to the SQL layer, which formats it with `str`. */
  datatype PyVal = PInt(n: int) | PStr(s: string)

  /** `str(v)`. */
  function Show(v: PyVal): string
  {
    match v
    case PInt(n) => IntToString(n)
    case PStr(s) => s
  }

  /** A where-clause triple `(column, operator, value)` as the driver writes it. */
  datatype Cond = Cond(col: Column, op: string, val: PyVal)

  /** The where clause with every column named and every value formatted. */
  function Terms(where: seq<Cond>): (r: seq<Term>)
    ensures |r| == |where|
    ensures forall i :: 0 <= i < |where| ==> r[i] == Term(ColumnName(where[i].col), where[i].op, Show(where[i].val))
  {
    seq(|where|, i requires 0 <= i < |where| => Term(ColumnName(where[i].col), where[i].op, Show(where[i].val)))
  }

  function Where(where: Option<seq<Cond>>): (r: Option<seq<Term>>)
    ensures r.None? <==> where.None?
  {
    match where
    case None => None
    case Some(w) => Some(Terms(w))
  }

  /** The `col` argument of a read: the default `*`, one column, a list, or a tuple. */
  datatype Cols = AllCols | OneCol(c: Column) | ColList(cs: seq<Column>) | ColTuple(cs: seq<Column>)

  function ColArgOf(cols: Cols): (r: ColArg)
    ensures r.Tuple? <==> cols.ColTuple?
  {
    match cols
    case AllCols => One("*")
    case OneCol(c) => One(ColumnName(c))
    case ColList(cs) => List(ColumnNames(cs))
    case ColTuple(cs) => Tuple(ColumnNames(cs))
  }

  /** The column list `select` hands to the decoder for a read that does not raise. */
  function Selected(cols: Cols): (r: seq<string>)
    ensures !cols.ColTuple? ==> ColumnList(ColArgOf(cols)) == Ok(r)
  {
    match cols
    case AllCols => ["*"]
    case OneCol(c) => [ColumnName(c)]
    case ColList(cs) => ColumnNames(cs)
    case ColTuple(cs) => ColumnNames(cs)
  }

  /** A call into the SQL layer, with the arguments the driver passes. */
  datatype Stmt =
    | Begin
    | Commit
    | Read(tables: seq<Table>, cols: Cols, where: Option<seq<Cond>>, orderBy: Option<Column>, asc: bool)
    | Insert(table: Table, rows: seq<PyVal>)
    | Update(table: Table, row: seq<(Column, PyVal)>, where: Option<seq<Cond>>)
    | Delete(table: Table, where: Option<seq<Cond>>)

  function OrderText(orderBy: Option<Column>): string
  {
    match orderBy
    case None => ""
    case Some(c) => ColumnName(c)
  }

  /** The text a statement is sent as, or the exception its builder raises. */
  function Render(st: Stmt): Result<string, PyError>
  {
    match st
    case Begin => Ok("BEGIN;")
    case Commit => Ok("COMMIT;")
    case Read(tables, cols, where, orderBy, asc) =>
      SelectSql(TableNames(tables), ColArgOf(cols), Where(where), OrderText(orderBy), asc)
    case Insert(table, rows) => InsertSql(TableName(table), seq(|rows|, i requires 0 <= i < |rows| => Show(rows[i])))
    case Update(table, row, where) =>
      UpdateSql(TableName(table), seq(|row|, i requires 0 <= i < |row| => (ColumnName(row[i].0), Show(row[i].1))),
                Where(where))
    case Delete(table, where) => DeleteSql(TableName(table), Where(where))
  }

  /** A statement whose builder raises before sending. */
  predicate Raises(st: Stmt)
  {
    match st
    case Begin => false
    case Commit => false
    case Read(_, cols, where, _, _) => where.None? || cols.ColTuple?
    case Insert(table, _) => TableName(table) !in NumOfCols
    case Update(_, _, where) => where.None?
    case Delete(_, where) => where.None?
  }

  /** `Raises` is exactly when the builder fails; reads fail with TypeError. */
  lemma RaisesIffRenderFails(st: Stmt)
    ensures Raises(st) <==> Render(st).Err?
    ensures st.Read? && Raises(st) ==> Render(st) == Err(TypeError)
  {
  }

  /** A script none of whose statements raises. */
  predicate Sendable(script: seq<Stmt>)
  {
    forall i :: 0 <= i < |script| ==> !Raises(script[i])
  }

  /** The texts of a sendable script, statement by statement. */
  function Texts(script: seq<Stmt>): (r: seq<string>)
    requires Sendable(script)
    ensures |r| == |script|
    ensures forall i :: 0 <= i < |script| ==> Render(script[i]) == Ok(r[i])
  {
    seq(|script|, i requires 0 <= i < |script| => (RaisesIffRenderFails(script[i]); Render(script[i]).value))
  }

  // ---------------------------------------------------------------------------
  // Scripts and where an abort cuts them

  /**
   * Statement k of a script is a data statement whose reply starts with
   * `abort`. BEGIN and COMMIT replies are strings compared with the enum
   * value ABORT, so they never stop a transaction.
   */
  predicate AbortsAt(script: seq<Stmt>, server: nat -> string, k: nat)
  {
    0 < k < |script| - 1 && StartsWith(server(k), "abort")
  }

  /** No statement before the m-th one aborts. */
  predicate ClearUpTo(script: seq<Stmt>, server: nat -> string, m: nat)
  {
    m <= |script| && forall k :: 0 <= k < m ==> !AbortsAt(script, server, k)
  }

  /** The first aborting statement at or after `from`, or |script| if none. */
  function FirstAbort(script: seq<Stmt>, server: nat -> string, from: nat): (k: nat)
    requires from <= |script|
    ensures from <= k <= |script|
    ensures k < |script| ==> AbortsAt(script, server, k)
    ensures forall j :: from <= j < k ==> !AbortsAt(script, server, j)
    decreases |script| - from
  {
    if from == |script| then |script|
    else if AbortsAt(script, server, from) then from
    else FirstAbort(script, server, from + 1)
  }

  /** What the client sends of a script: all of it, or up to the first aborting statement. */
  function Sent(script: seq<Stmt>, server: nat -> string): seq<Stmt>
  {
    var k := FirstAbort(script, server, 0);
    if k == |script| then script else script[..k + 1]
  }

  /** What the transaction returns. */
  function Outcome(script: seq<Stmt>, server: nat -> string): SQLState
  {
    if FirstAbort(script, server, 0) == |script| then SUCCESS else ABORT
  }

  /**
   * A transaction succeeds exactly when no data statement aborts, and then
   * sends its whole script; otherwise it sends the script up to and including
   * the first aborting statement, and so never its COMMIT.
   */
  lemma AbortCut(script: seq<Stmt>, server: nat -> string)
    ensures Outcome(script, server) == SUCCESS <==> ClearUpTo(script, server, |script|)
    ensures Outcome(script, server) == SUCCESS ==> Sent(script, server) == script
    ensures Outcome(script, server) == ABORT ==>
              exists k :: AbortsAt(script, server, k) && ClearUpTo(script, server, k) &&
                          Sent(script, server) == script[..k + 1] && |Sent(script, server)| < |script|
  {
    var k := FirstAbort(script, server, 0);
    if k < |script| {
      assert AbortsAt(script, server, k) && ClearUpTo(script, server, k);
    }
  }

  lemma StopAt(script: seq<Stmt>, server: nat -> string, m: nat)
    requires ClearUpTo(script, server, m) && AbortsAt(script, server, m)
    ensures Sent(script, server) == script[..m + 1]
    ensures Outcome(script, server) == ABORT
  {
    var k := FirstAbort(script, server, 0);
    assert k < |script| ==> AbortsAt(script, server, k);
  }

  lemma RunThrough(script: seq<Stmt>, server: nat -> string)
    requires ClearUpTo(script, server, |script|)
    ensures Sent(script, server) == script
    ensures Outcome(script, server) == SUCCESS
  {
    var k := FirstAbort(script, server, 0);
    var aborts := AbortsAt(script, server, k);
    assert !aborts;
  }

  /**
   * `insert`, `update` or `delete` sending st, the next statement of the
   * script: the transaction stops when the reply starts with `abort`.
   */
  method SendDml(ghost script: seq<Stmt>, server: nat -> string, sent0: seq<Stmt>, st: Stmt)
    returns (sent: seq<Stmt>, stop: bool)
    requires 0 < |sent0| < |script| - 1 && sent0 == script[..|sent0|] && script[|sent0|] == st
    requires ClearUpTo(script, server, |sent0|)
    ensures |sent| == |sent0| + 1
    ensures stop <==> DmlState(server(|sent0|)) == Some(ABORT)
    ensures stop ==> sent == Sent(script, server) && Outcome(script, server) == ABORT
    ensures !stop ==> sent == script[..|sent|] && ClearUpTo(script, server, |sent|)
  {
    sent := sent0 + [st];
    stop := DmlState(server(|sent0|)) == Some(ABORT);
    if stop {
      StopAt(script, server, |sent0|);
    }
  }

  /**
   * The column count `real_col_num` gives for read st, from the schema
   * alone: a table's width for `*` over one table, KeyError for `*` over
   * several, and otherwise the number of columns named.
   */
  function Width(st: Stmt): Result<nat, PyError>
    requires st.Read?
  {
    match st.cols
    case AllCols => if |st.tables| == 1 then Ok(TableWidth(st.tables[0])) else Err(KeyError)
    case OneCol(_) => Ok(1)
    case ColList(cs) => Ok(|cs|)
    case ColTuple(cs) => Ok(|cs|)
  }

  /** `Width` is what `real_col_num` computes from the names the read passes. */
  lemma WidthIsRealColNum(st: Stmt)
    requires st.Read?
    ensures RealColNum(TableNames(st.tables), Selected(st.cols)) == Width(st)
  {
    var names := TableNames(st.tables);
    var cols := Selected(st.cols);
    match st.cols
    case AllCols =>
      assert cols == ["*"];
      if |names| == 1 {
        assert Join(",", names) == TableName(st.tables[0]);
        TableCounted(st.tables[0]);
      } else if |names| == 0 {
        assert Join(",", names) == "";
      } else {
        var j := Join(",", names);
        assert j == names[0] + "," + Join(",", names[1..]);
        assert j[|names[0]|] == ',';
        if j in NumOfCols {
          KeysCommaFree(j);
        }
      }
    case OneCol(c) =>
      NotStar(c);
    case ColList(cs) =>
      if |cs| == 1 {
        NotStar(cs[0]);
      }
    case ColTuple(cs) =>
      if |cs| == 1 {
        NotStar(cs[0]);
      }
  }

  /** What `select` returns for read st once sent, given the server's reply. */
  function Reply(st: Stmt, reply: string): Result<SelectResult, PyError>
    requires st.Read? && DecodableReply(reply, Width(st))
  {
    ReplyRows(Width(st), reply)
  }

  /**
   * `select` for read st: a read that raises sends nothing and got the
   * exception; otherwise st is the next statement of the script, and the
   * transaction stops when the result is ABORT.
   */
  method SendRead(ghost script: seq<Stmt>, server: nat -> string, sent0: seq<Stmt>, st: Stmt)
    returns (sent: seq<Stmt>, r: Result<SelectResult, PyError>, stop: bool)
    requires st.Read? && |sent0| <= |script| && sent0 == script[..|sent0|] && ClearUpTo(script, server, |sent0|)
    requires !Raises(st) ==> (0 < |sent0| < |script| - 1 && script[|sent0|] == st
                              && DecodableReply(server(|sent0|), Width(st)))
    ensures Raises(st) ==> sent == sent0 && r == Err(TypeError) && !stop
    ensures !Raises(st) ==> |sent| == |sent0| + 1 && r == Reply(st, server(|sent0|))
    ensures stop <==> r == Ok(Aborted)
    ensures stop ==> sent == Sent(script, server) && Outcome(script, server) == ABORT
    ensures !stop ==> sent == script[..|sent|] && ClearUpTo(script, server, |sent|)
  {
    if Raises(st) {
      return sent0, Err(TypeError), false;
    }
    sent := sent0 + [st];
    WidthIsRealColNum(st);
    r := SelectReply(TableNames(st.tables), Selected(st.cols), server(|sent0|));
    assert r == Reply(st, server(|sent0|));
    stop := r == Ok(Aborted);
    if stop {
      StopAt(script, server, |sent0|);
    } else {
      ClearStep(script, server, sent0, st);
    }
  }

  /** A statement that does not abort extends the clear prefix by one. */
  lemma ClearStep(script: seq<Stmt>, server: nat -> string, sent0: seq<Stmt>, st: Stmt)
    requires |sent0| < |script| && sent0 == script[..|sent0|] && script[|sent0|] == st
    requires ClearUpTo(script, server, |sent0|) && !AbortsAt(script, server, |sent0|)
    ensures sent0 + [st] == script[..|sent0| + 1] && ClearUpTo(script, server, |sent0| + 1)
  {
  }

  /** Sending COMMIT, the last statement, after no data statement aborted. */
  method SendCommit(ghost script: seq<Stmt>, server: nat -> string, sent0: seq<Stmt>)
    returns (sent: seq<Stmt>)
    requires |sent0| == |script| - 1 && sent0 == script[..|sent0|] && script[|sent0|] == Commit
    requires ClearUpTo(script, server, |sent0|)
    ensures sent == Sent(script, server) && Outcome(script, server) == SUCCESS
  {
    sent := sent0 + [Commit];
    RunThrough(script, server);
  }

  function Eq(col: Column, v: PyVal): Cond
  {
    Cond(col, "=", v)
  }

  /** The read gave a first row whose first cell is an integer. */
  predicate HasIntCell(r: Result<SelectResult, PyError>)
  {
    r.Ok? && r.value.Rows? && |r.value.rows| > 0 && |r.value.rows[0]| > 0 && EvalInt(r.value.rows[0][0]).Some?
  }

  /** `eval(res[0][0])` of a read, or the `except` default when that raises. */
  function FirstCellInt(r: Result<SelectResult, PyError>, default: int): (v: int)
    ensures HasIntCell(r) ==> v == EvalInt(r.value.rows[0][0]).value
    ensures !HasIntCell(r) ==> v == default
  {
    if r.Ok? && r.value.Rows? && |r.value.rows| > 0 && |r.value.rows[0]| > 0 then
      match EvalInt(r.value.rows[0][0])
      case Some(x) => x
      case None => default
    else default
  }

  /** A read of one integer column gives back the integer printed in the reply's first cell. */
  lemma FirstCellRoundTrip(n: int, rest: seq<string>, rows: seq<seq<string>>, default: int)
    ensures FirstCellInt(Ok(Rows([[IntToString(n)] + rest] + rows)), default) == n
  {
    IntToStringRoundTrip(n);
  }

  // ---------------------------------------------------------------------------
  // New-order

  /** The stock columns new-order reads and rewrites. */
  datatype StockRow = StockRow(quantity: int, ytd: int, orderCnt: int, remoteCnt: int)

  /** The zeroed columns the `except` branch of the stock read supplies. */
  const NoStock: StockRow := StockRow(0, 0, 0, 0)

  /**
   * Taking q units for one order line: the quantity is restocked by 91 when
   * it would drop below 10, the year-to-date and order counters grow, and
   * the remote counter grows for a line supplied by another warehouse.
   */
  function OrderFromStock(s: StockRow, q: int, remote: bool): (r: StockRow)
    ensures r.ytd == s.ytd + q && r.orderCnt == s.orderCnt + 1
    ensures r.remoteCnt == s.remoteCnt + (if remote then 1 else 0)
    ensures s.quantity - q >= 10 ==> r.quantity == s.quantity - q
    ensures s.quantity - q < 10 ==> r.quantity == s.quantity - q + 91
  {
    StockRow(if s.quantity - q >= 10 then s.quantity - q else s.quantity - q + 91,
          s.ytd + q, s.orderCnt + 1, s.remoteCnt + if remote then 1 else 0)
  }

  /** TPC-C's stock range [10, 100] is kept by orders of 1 to 10 units. */
  lemma StockStaysInRange(s: StockRow, q: int, remote: bool)
    requires 10 <= s.quantity <= 100 && 1 <= q <= 10
    ensures 10 <= OrderFromStock(s, q, remote).quantity <= 100
  {
  }

  /** From the zeroed stock the driver always starts from, a line of q units writes 91 - q. */
  lemma LineFromNoStock(q: int, remote: bool)
    requires 1 <= q <= 10
    ensures OrderFromStock(NoStock, q, remote) == StockRow(91 - q, q, 1, if remote then 1 else 0)
  {
  }

  /** `int(len(set(ol_supply_w_id)) == 1)`. */
  function AllLocal(supplies: seq<int>): int
  {
    if |set i | 0 <= i < |supplies| :: supplies[i]| == 1 then 1 else 0
  }

  /** The order is all-local exactly when every line names the same supplying warehouse. */
  lemma AllLocalMeaning(supplies: seq<int>)
    ensures AllLocal(supplies) == 1 <==>
            |supplies| > 0 && forall i :: 0 <= i < |supplies| ==> supplies[i] == supplies[0]
  {
    var ws := set i | 0 <= i < |supplies| :: supplies[i];
    if |supplies| > 0 && forall i :: 0 <= i < |supplies| ==> supplies[i] == supplies[0] {
      assert ws == {supplies[0]};
    } else if |supplies| == 0 {
      assert ws == {};
    } else {
      var i :| 0 <= i < |supplies| && supplies[i] != supplies[0];
      var pair := {supplies[0], supplies[i]};
      assert supplies[0] in ws && supplies[i] in ws;
      assert ws == pair + (ws - pair);
      assert |pair| == 2;
    }
  }

  /** `brand_generic`: 'B' only when both the item data and the stock data mention ORIGINAL. */
  function BrandGeneric(iData: string, sData: string): (r: char)
    ensures r == 'B' || r == 'G'
    ensures r == 'B' <==> Contains(iData, "ORIGINAL") && Contains(sData, "ORIGINAL")
  {
    if Contains(iData, "ORIGINAL") && Contains(sData, "ORIGINAL") then 'B' else 'G'
  }

  /** The item read always fails and leaves `i_data = 'null'`, so every line is generic. */
  lemma NullItemIsGeneric(sData: string)
    ensures BrandGeneric("null", sData) == 'G'
  {
    assert |"null"| < |"ORIGINAL"|;
  }

  /** `s_dist[d_id - 1]` with Python's indexing, negative indexes counting from the end. */
  function DistInfo(sDist: seq<string>, d: int): (r: Result<string, PyError>)
    ensures r.Err? <==> !(-|sDist| <= d - 1 < |sDist|)
    ensures 1 <= d <= |sDist| ==> r == Ok(sDist[d - 1])
  {
    var i := d - 1;
    if 0 <= i < |sDist| then Ok(sDist[i])
    else if -|sDist| <= i < 0 then Ok(sDist[|sDist| + i])
    else Err(IndexError)
  }

  /** The stock read raises, `s_dist` stays the empty list, and the order-line insert is never reached. */
  lemma NoOrderLineInserted(d: int)
    ensures DistInfo([], d) == Err(IndexError)
  {
  }

  function NewOrderDistrictUpdate(w: int, d: int, nextOId: int): Stmt
  {
    Update(District, [(DNextOId, PInt(nextOId + 1))],
           Some([Eq(DId, PInt(d)), Eq(DWId, PInt(w))]))
  }

  /** The customer and warehouse read; `c_w_id=w_id` compares with the column name. */
  function NewOrderCustomerRead(w: int, d: int, c: int): Stmt
  {
    Read([Customer, Warehouse], ColList([CDiscount, CLast, CCredit, WTax]),
         Some([Eq(WId, PInt(w)), Eq(CWId, PStr(ColumnName(WId))), Eq(CDId, PInt(d)), Eq(CId, PInt(c))]),
         None, false)
  }

  function OrdersInsert(w: int, d: int, c: int, nextOId: int, now: string, olCnt: int, allLocal: int): Stmt
  {
    Insert(Orders, [PInt(nextOId), PInt(d), PInt(w), PInt(c),
                      PStr("'" + now + "'"), PInt(0), PInt(olCnt), PInt(allLocal)])
  }

  function NewOrdersInsert(w: int, d: int, nextOId: int): Stmt
  {
    Insert(NewOrders, [PInt(nextOId), PInt(d), PInt(w)])
  }

  function StockUpdate(item: int, supply: int, s: StockRow): Stmt
  {
    Update(Stock, [(SQuantity, PInt(s.quantity)), (SYtd, PInt(s.ytd)),
                     (SOrderCnt, PInt(s.orderCnt)), (SRemoteCnt, PInt(s.remoteCnt))],
           Some([Eq(SIId, PInt(item)), Eq(SWId, PInt(supply))]))
  }

  /** The stock update of order line i, from the zeroed stock. */
  function LineUpdate(w: int, items: seq<int>, supplies: seq<int>, qtys: seq<int>, i: nat): Stmt
    requires |supplies| == |items| && |qtys| == |items| && i < |items|
  {
    StockUpdate(items[i], supplies[i], OrderFromStock(NoStock, qtys[i], supplies[i] != w))
  }

  /**
   * What new-order sends when nothing aborts: BEGIN, the district update with
   * the default next order id 0, the customer and warehouse read, the ORDERS
   * and NEW_ORDERS inserts, one stock update per line, COMMIT.
   */
  function NewOrderScript(w: int, d: int, c: int, items: seq<int>, supplies: seq<int>, qtys: seq<int>,
                          now: string): (r: seq<Stmt>)
    requires |supplies| == |items| && |qtys| == |items|
    ensures |r| == 6 + |items| && r[0] == Begin && r[|r| - 1] == Commit
    ensures forall i :: 0 <= i < |items| ==> r[5 + i] == LineUpdate(w, items, supplies, qtys, i)
  {
    [Begin, NewOrderDistrictUpdate(w, d, 0), NewOrderCustomerRead(w, d, c),
     OrdersInsert(w, d, c, 0, now, |items|, AllLocal(supplies)), NewOrdersInsert(w, d, 0)]
    + seq(|items|, i requires 0 <= i < |items| => LineUpdate(w, items, supplies, qtys, i))
    + [Commit]
  }

  /** No statement of the new-order script raises in its builder. */
  lemma NewOrderSendable(w: int, d: int, c: int, items: seq<int>, supplies: seq<int>, qtys: seq<int>, now: string)
    requires |supplies| == |items| && |qtys| == |items|
    ensures Sendable(NewOrderScript(w, d, c, items, supplies, qtys, now))
  {
    var script := NewOrderScript(w, d, c, items, supplies, qtys, now);
    TableCounted(Orders);
    TableCounted(NewOrders);
    forall k | 0 <= k < |script|
      ensures !Raises(script[k])
    {
      if 5 <= k < 5 + |items| {
        assert script[5 + (k - 5)] == LineUpdate(w, items, supplies, qtys, k - 5);
      }
    }
  }

  /** The fifteen stock columns new-order asks for. */
  const StockCols: seq<Column> :=
    [SQuantity, SDist01, SDist02, SDist03, SDist04, SDist05, SDist06, SDist07,
     SDist08, SDist09, SDist10, SYtd, SOrderCnt, SRemoteCnt, SData]

  /**
   * `do_new_order`. The district, item and stock reads pass tuples of
   * columns and raise before sending; the order-line insert raises on the
   * empty `s_dist` and is skipped.
   */
  method DoNewOrder(w: int, d: int, c: int, items: seq<int>, supplies: seq<int>, qtys: seq<int>,
                    now: string, server: nat -> string) returns (res: SQLState, sent: seq<Stmt>)
    requires |supplies| == |items| && |qtys| == |items|
    requires DecodableReply(server(2), Width(NewOrderCustomerRead(w, d, c)))
    ensures sent == Sent(NewOrderScript(w, d, c, items, supplies, qtys, now), server)
    ensures res == Outcome(NewOrderScript(w, d, c, items, supplies, qtys, now), server)
  {
    ghost var script := NewOrderScript(w, d, c, items, supplies, qtys, now);
    sent := [Begin];
    var stop, r;
    sent, r, stop := SendRead(script, server, sent, Read([District], ColTuple([DTax, DNextOId]),
                              Some([Eq(DId, PInt(d)), Eq(DWId, PInt(w))]), None, false));
    var nextOId := 0;
    sent, stop := SendDml(script, server, sent, NewOrderDistrictUpdate(w, d, nextOId));
    if stop {
      return ABORT, sent;
    }
    sent, r, stop := SendRead(script, server, sent, NewOrderCustomerRead(w, d, c));
    if stop {
      return ABORT, sent;
    }
    sent, stop := SendDml(script, server, sent, OrdersInsert(w, d, c, nextOId, now, |items|, AllLocal(supplies)));
    if stop {
      return ABORT, sent;
    }
    sent, stop := SendDml(script, server, sent, NewOrdersInsert(w, d, nextOId));
    if stop {
      return ABORT, sent;
    }
    sent, stop := SendOrderLines(w, items, supplies, qtys, server, script, sent);
    if stop {
      return ABORT, sent;
    }
    sent := SendCommit(script, server, sent);
    res := SUCCESS;
  }

  /**
   * The loop over the order lines: the item and stock reads raise and send
   * nothing, and the stock update starts from the zeroed stock.
   */
  method SendOrderLines(w: int, items: seq<int>, supplies: seq<int>, qtys: seq<int>, server: nat -> string,
                        ghost script: seq<Stmt>, sent0: seq<Stmt>) returns (sent: seq<Stmt>, stop: bool)
    requires |supplies| == |items| && |qtys| == |items| && |script| == 6 + |items|
    requires forall i :: 0 <= i < |items| ==> script[5 + i] == LineUpdate(w, items, supplies, qtys, i)
    requires |sent0| == 5 && sent0 == script[..5] && ClearUpTo(script, server, 5)
    ensures stop ==> sent == Sent(script, server) && Outcome(script, server) == ABORT
    ensures !stop ==> |sent| == 5 + |items| && sent == script[..|sent|] && ClearUpTo(script, server, |sent|)
  {
    sent := sent0;
    for i := 0 to |items|
      invariant |sent| == 5 + i && sent == script[..|sent|]
      invariant ClearUpTo(script, server, |sent|)
    {
      var r;
      sent, r, stop := SendRead(script, server, sent, Read([Item], ColTuple([IPrice, IName, IData]),
                                Some([Eq(IId, PInt(items[i]))]), None, false));
      sent, r, stop := SendRead(script, server, sent, Read([Stock], ColTuple(StockCols),
                                Some([Eq(SIId, PInt(items[i])), Eq(SWId, PInt(supplies[i]))]),
                                None, false));
      var stock := OrderFromStock(NoStock, qtys[i], supplies[i] != w);
      assert script[5 + i] == LineUpdate(w, items, supplies, qtys, i);
      sent, stop := SendDml(script, server, sent, StockUpdate(items[i], supplies[i], stock));
      if stop {
        return;
      }
    }
    stop := false;
  }

  // ---------------------------------------------------------------------------
  // Payment

  /** Who pays: a customer id or a last name (`type(c_query) == str`). */
  datatype CustomerKey = ById(id: int) | ByLast(name: string)

  /** The text `c_data` becomes for a bad-credit customer: the new entry first, cut to 500 characters. */
  function CustomerData(entry: string, prior: string): (r: string)
    ensures |r| <= 500
    ensures r <= entry + prior
    ensures |entry + prior| <= 500 ==> r == entry + prior
  {
    var full := entry + prior;
    if |full| <= 500 then full else full[..500]
  }

  /** The new entry always survives the cut when it fits by itself. */
  lemma CustomerDataKeepsEntry(entry: string, prior: string)
    requires |entry| <= 500
    ensures entry <= CustomerData(entry, prior)
  {
    var full := entry + prior;
    assert full[..|entry|] == entry;
    if |full| > 500 {
      assert full[..500][..|entry|] == entry;
    }
  }

  /** `w_ytd = w_ytd+<amount>`: the addition is left to the server. */
  function WarehouseYtdUpdate(w: int, hText: string): Stmt
  {
    Update(Warehouse, [(WYtd, PStr(ColumnName(WYtd) + "+" + hText))], Some([Eq(WId, PInt(w))]))
  }

  function DistrictYtdUpdate(w: int, d: int, hText: string): Stmt
  {
    Update(District, [(DYtd, PStr(ColumnName(DYtd) + "+" + hText))], Some([Eq(DWId, PInt(w)), Eq(DId, PInt(d))]))
  }

  function PaymentCustomerUpdate(w: int, d: int, cId: int, balance: string, ytd: int, cnt: int): Stmt
  {
    Update(Customer, [(CBalance, PStr(balance)), (CYtdPayment, PInt(ytd + 1)),
                        (CPaymentCnt, PInt(cnt + 1))],
           Some([Eq(CWId, PInt(w)), Eq(CDId, PInt(d)), Eq(CId, PInt(cId))]))
  }

  function HistoryInsert(w: int, d: int, cw: int, cd: int, cId: int, now: string, hText: string, hData: string): Stmt
  {
    Insert(History, [PInt(cId), PInt(cd), PInt(cw), PInt(d), PInt(w),
                       PStr("'" + now + "'"), PStr(hText), PStr("'" + hData + "'")])
  }

  /**
   * What payment sends when nothing aborts. The warehouse, district and
   * customer reads all raise, so the customer is id 1 with credit 'GC' (the
   * bad-credit update is never sent), its balance is written as the amount
   * itself, and the history row names 'null' for both the warehouse and the
   * district. `hText` is `str(h_amount)`.
   */
  function PaymentScript(w: int, d: int, cw: int, cd: int, hText: string, now: string): (r: seq<Stmt>)
    ensures |r| == 6 && r[0] == Begin && r[5] == Commit
  {
    [Begin, WarehouseYtdUpdate(w, hText), DistrictYtdUpdate(w, d, hText),
     PaymentCustomerUpdate(w, d, 1, hText, 0, 0), HistoryInsert(w, d, cw, cd, 1, now, hText, "null" + "    " + "null"),
     Commit]
  }

  /** No statement of the payment script raises in its builder. */
  lemma PaymentSendable(w: int, d: int, cw: int, cd: int, hText: string, now: string)
    ensures Sendable(PaymentScript(w, d, cw, cd, hText, now))
  {
    TableCounted(History);
  }

  const PaymentCustomerCols: seq<Column> :=
    [CId, CFirst, CMiddle, CLast, CStreet1, CStreet2, CCity, CState,
     CZip, CPhone, CSince, CCredit, CCreditLim, CDiscount,
     CBalance, CYtdPayment, CPaymentCnt]

  /**
   * Payment's customer read, by last name or by id: its columns are a tuple,
   * so it raises TypeError and sends nothing.
   */
  method ReadPaymentCustomer(ghost script: seq<Stmt>, server: nat -> string, sent: seq<Stmt>,
                             cQuery: CustomerKey, cw: int, cd: int)
    returns (r: Result<SelectResult, PyError>)
    requires |sent| <= |script| && sent == script[..|sent|] && ClearUpTo(script, server, |sent|)
    ensures r == Err(TypeError)
  {
    var sent', stop;
    match cQuery {
      case ByLast(name) =>
        sent', r, stop := SendRead(script, server, sent,
                                   Read([Customer], ColTuple(PaymentCustomerCols),
                                        Some([Eq(CLast, PStr(name)), Eq(CWId, PInt(cw)), Eq(CDId, PInt(cd))]),
                                        None, true));
      case ById(id) =>
        sent', r, stop := SendRead(script, server, sent,
                                   Read([Customer], ColTuple(PaymentCustomerCols),
                                        Some([Eq(CId, PInt(id)), Eq(CWId, PInt(cw)), Eq(CDId, PInt(cd))]),
                                        None, false));
    }
  }

  /** `do_payment`. */
  method DoPayment(w: int, d: int, cw: int, cd: int, cQuery: CustomerKey, hText: string, now: string,
                   server: nat -> string) returns (res: SQLState, sent: seq<Stmt>)
    ensures sent == Sent(PaymentScript(w, d, cw, cd, hText, now), server)
    ensures res == Outcome(PaymentScript(w, d, cw, cd, hText, now), server)
  {
    ghost var script := PaymentScript(w, d, cw, cd, hText, now);
    sent := [Begin];
    var stop, r;
    sent, r, stop := SendRead(script, server, sent,
                              Read([Warehouse], ColTuple([WName, WStreet1, WStreet2, WCity, WState, WZip, WYtd]),
                                   Some([Eq(WId, PInt(w))]), None, false));
    var wName := "null";
    sent, stop := SendDml(script, server, sent, WarehouseYtdUpdate(w, hText));
    if stop {
      return ABORT, sent;
    }
    sent, r, stop := SendRead(script, server, sent,
                              Read([District], ColTuple([DName, DStreet1, DStreet2, DCity, DState, DZip, DYtd]),
                                   Some([Eq(DId, PInt(d))]), None, false));
    var dName := "null";
    sent, stop := SendDml(script, server, sent, DistrictYtdUpdate(w, d, hText));
    if stop {
      return ABORT, sent;
    }
    r := ReadPaymentCustomer(script, server, sent, cQuery, cw, cd);
    // the `except` branch: credit 'GC', so the bad-credit `c_data` update is not sent
    var cId, cYtd, cCnt := 1, 0, 0;
    sent, stop := SendDml(script, server, sent, PaymentCustomerUpdate(w, d, cId, hText, cYtd, cCnt));
    if stop {
      return ABORT, sent;
    }
    var hData := wName + "    " + dName;
    sent, stop := SendDml(script, server, sent, HistoryInsert(w, d, cw, cd, cId, now, hText, hData));
    if stop {
      return ABORT, sent;
    }
    sent := SendCommit(script, server, sent);
    res := SUCCESS;
  }

  // ---------------------------------------------------------------------------
  // Order-status

  /** Every read of order-status passes a tuple of columns, so only BEGIN and COMMIT are sent. */
  function OrderStatusScript(): (r: seq<Stmt>)
    ensures |r| == 2 && r[0] == Begin && r[1] == Commit
  {
    [Begin, Commit]
  }

  /** `do_order_status`. */
  method DoOrderStatus(w: int, d: int, cQuery: CustomerKey, server: nat -> string) returns (res: SQLState, sent: seq<Stmt>)
    ensures sent == Sent(OrderStatusScript(), server)
    ensures res == Outcome(OrderStatusScript(), server)
  {
    ghost var script := OrderStatusScript();
    sent := [Begin];
    var stop, r;
    var cId := 0;
    var cols := [CId, CBalance, CFirst, CMiddle, CLast];
    match cQuery {
      case ByLast(name) =>
        sent, r, stop := SendRead(script, server, sent,
                                  Read([Customer], ColTuple(cols),
                                       Some([Eq(CLast, PStr(name)), Eq(CWId, PInt(w)), Eq(CDId, PInt(d))]),
                                       Some(CFirst), true));
      case ById(id) =>
        sent, r, stop := SendRead(script, server, sent,
                                  Read([Customer], ColTuple(cols),
                                       Some([Eq(CId, PInt(id)), Eq(CWId, PInt(w)), Eq(CDId, PInt(d))]),
                                       None, false));
        cId := 2101;
    }
    sent, r, stop := SendRead(script, server, sent,
                              Read([Orders], ColTuple([OId, OEntryD, OCarrierId]),
                                   Some([Eq(OWId, PInt(w)), Eq(ODId, PInt(d)), Eq(OCId, PInt(cId))]),
                                   None, false));
    var oId := 1;
    sent, r, stop := SendRead(script, server, sent,
                              Read([OrderLine], ColTuple([OlIId, OlSupplyWId, OlQuantity, OlAmount, OlDeliveryD]),
                                   Some([Eq(OlWId, PInt(w)), Eq(OlDId, PInt(d)), Eq(OlOId, PInt(oId))]),
                                   None, false));
    sent := SendCommit(script, server, sent);
    res := SUCCESS;
  }

  // ---------------------------------------------------------------------------
  // Delivery

  /** `sum([eval(o[0]) for o in row])`: each cell's first character must be a digit. */
  function LeadDigitSum(row: seq<string>): (r: Option<int>)
    ensures r.Some? <==> forall i :: 0 <= i < |row| ==> |row[i]| > 0 && IsDigit(row[i][0])
    ensures r.Some? ==> 0 <= r.value <= 9 * |row|
  {
    if |row| == 0 then Some(0)
    else if |row[0]| > 0 && IsDigit(row[0][0]) then
      var rest := LeadDigitSum(row[1..]);
      assert forall i :: 1 <= i < |row| ==> row[i] == row[1..][i - 1];
      if rest.None? then None else Some((row[0][0] as int - '0' as int) + rest.value)
    else None
  }

  /** `ol_amount` of a delivery: the digit sum over the first row, 0 when anything raises. */
  function DeliveredAmount(r: Result<SelectResult, PyError>): (v: int)
    ensures v >= 0
    ensures r.Ok? && r.value.Rows? && |r.value.rows| > 0 && |r.value.rows[0]| == 1 &&
            |r.value.rows[0][0]| > 0 && IsDigit(r.value.rows[0][0][0]) ==>
              v == r.value.rows[0][0][0] as int - '0' as int
  {
    if r.Ok? && r.value.Rows? && |r.value.rows| > 0 then
      match LeadDigitSum(r.value.rows[0])
      case Some(t) => t
      case None => 0
    else 0
  }

  function NewOrderRead(w: int, d: int): Stmt
  {
    Read([NewOrders], OneCol(NoOId), Some([Eq(NoWId, PInt(w)), Eq(NoDId, PInt(d))]), None, true)
  }

  function NewOrderDelete(w: int, d: int, oId: int): Stmt
  {
    Delete(NewOrders, Some([Eq(NoWId, PInt(w)), Eq(NoDId, PInt(d)), Eq(NoOId, PInt(oId))]))
  }

  function OrderWhere(w: int, d: int, oId: int): seq<Cond>
  {
    [Eq(OId, PInt(oId)), Eq(OWId, PInt(w)), Eq(ODId, PInt(d))]
  }

  function OrderCustomerRead(w: int, d: int, oId: int): Stmt
  {
    Read([Orders], OneCol(OCId), Some(OrderWhere(w, d, oId)), None, false)
  }

  function CarrierUpdate(w: int, d: int, oId: int, carrier: int): Stmt
  {
    Update(Orders, [(OCarrierId, PInt(carrier))], Some(OrderWhere(w, d, oId)))
  }

  function OrderLinesRead(w: int, d: int, oId: int, cols: Cols): Stmt
  {
    Read([OrderLine], cols,
         Some([Eq(OlWId, PInt(w)), Eq(OlDId, PInt(d)), Eq(OlOId, PInt(oId))]), None, false)
  }

  function DeliveryCustomerRead(w: int, d: int, cId: int): Stmt
  {
    Read([Customer], ColTuple([CBalance, CDeliveryCnt]),
         Some([Eq(CWId, PInt(w)), Eq(CDId, PInt(d)), Eq(CId, PInt(cId))]), None, false)
  }

  function DeliveryCustomerUpdate(w: int, d: int, cId: int, balance: int, cnt: int): Stmt
  {
    Update(Customer, [(CBalance, PInt(balance)), (CDeliveryCnt, PInt(cnt + 1))],
           Some([Eq(CWId, PInt(w)), Eq(CDId, PInt(d)), Eq(CId, PInt(cId))]))
  }

  /** The order id, customer id and amount district d's reads yield. */
  datatype DistrictReads = DistrictReads(oId: int, oCId: int, amount: int)

  /** `eval(res[0][0])` of read st given its reply, or the default when that raises. */
  function ReadInt(st: Stmt, reply: string, default: int): int
  {
    if st.Read? && DecodableReply(reply, Width(st)) then FirstCellInt(Reply(st, reply), default) else default
  }

  /**
   * What the reads at base, base + 2 and base + 5 yield: the oldest new
   * order and the order's customer (2101 when the read gives nothing) and
   * the delivered amount.
   */
  function ReadsOf(w: int, d: int, server: nat -> string, base: nat): (x: DistrictReads)
    ensures x.amount >= 0
  {
    var oId := ReadInt(NewOrderRead(w, d), server(base), 2101);
    DistrictReads(oId, ReadInt(OrderCustomerRead(w, d, oId), server(base + 2), 2101),
                  if DecodableReply(server(base + 5), Width(OrderLinesRead(w, d, oId, OneCol(OlAmount))))
                  then DeliveredAmount(Reply(OrderLinesRead(w, d, oId, OneCol(OlAmount)), server(base + 5)))
                  else 0)
  }

  /**
   * The seven statements for district d: the oldest new order is read and
   * deleted, its customer read, its carrier set, its lines read twice, and
   * the customer's balance and delivery count written. The customer read
   * passes a tuple and sends nothing, so the balance written is the amount
   * itself. The per-line delivery-date update is never sent: the list of
   * lines the driver builds is always empty.
   */
  function DistrictStmts(w: int, carrier: int, d: int, x: DistrictReads): (r: seq<Stmt>)
    ensures |r| == 7
  {
    [NewOrderRead(w, d), NewOrderDelete(w, d, x.oId), OrderCustomerRead(w, d, x.oId), CarrierUpdate(w, d, x.oId, carrier),
     OrderLinesRead(w, d, x.oId, AllCols), OrderLinesRead(w, d, x.oId, OneCol(OlAmount)),
     DeliveryCustomerUpdate(w, d, x.oCId, 0 + x.amount, 0)]
  }

  /** What the reads of each of the ten districts yield; district d's first statement is 7d - 6. */
  function DistrictReadsOf(w: int, server: nat -> string): (r: seq<DistrictReads>)
    ensures |r| == 10
  {
    Tabulate(10, d => ReadsOf(w, d, server, FirstOf(d)))
  }

  /** Where district d's statements start: 7d - 6. */
  function FirstOf(d: nat): nat
  {
    if d == 0 then 0 else 7 * d - 6
  }

  /** f(1) to f(n). */
  function Tabulate<T>(n: nat, f: nat -> T): (r: seq<T>)
    ensures |r| == n
  {
    seq(n, i requires 0 <= i < n => f(i + 1))
  }

  /** Entry d - 1 of the table is f(d). */
  lemma TabulateAt<T>(n: nat, f: nat -> T, d: nat)
    requires 1 <= d <= n
    ensures Tabulate(n, f)[d - 1] == f(d)
  {
  }

  /** District d's reads start at statement 7d - 6. */
  lemma DistrictReadsAt(w: int, server: nat -> string, d: nat)
    requires 1 <= d <= 10
    ensures DistrictReadsOf(w, server)[d - 1] == ReadsOf(w, d, server, 7 * d - 6)
  {
    TabulateAt(10, d => ReadsOf(w, d, server, FirstOf(d)), d);
  }

  /** The statements for districts 1 to n, given what each district's got yield. */
  function DeliveryDistricts(w: int, carrier: int, got: seq<DistrictReads>, n: nat): (r: seq<Stmt>)
    requires n <= |got|
    ensures |r| == 7 * n
  {
    if n == 0 then []
    else DeliveryDistricts(w, carrier, got, n - 1) + DistrictStmts(w, carrier, n, got[n - 1])
  }

  /** What delivery sends when nothing aborts: BEGIN, seven statements per district, COMMIT. */
  function DeliveryScript(w: int, carrier: int, server: nat -> string): (r: seq<Stmt>)
    ensures |r| == 72 && r[0] == Begin && r[71] == Commit
  {
    [Begin] + DeliveryDistricts(w, carrier, DistrictReadsOf(w, server), 10) + [Commit]
  }

  /** District d's statements sit at positions 7d - 7 to 7d - 1 of the districts' statements. */
  lemma {:induction false} DistrictsAt(w: int, carrier: int, got: seq<DistrictReads>, n: nat, d: nat)
    requires 1 <= d <= n <= |got|
    ensures DeliveryDistricts(w, carrier, got, n)[7 * d - 7 .. 7 * d] == DistrictStmts(w, carrier, d, got[d - 1])
    decreases n
  {
    var prev := DeliveryDistricts(w, carrier, got, n - 1);
    var last := DistrictStmts(w, carrier, n, got[n - 1]);
    if d < n {
      DistrictsAt(w, carrier, got, n - 1, d);
      PrefixSlice(prev, last, 7 * d - 7, 7 * d);
    } else {
      SuffixSlice(prev, last, 7 * d);
    }
  }

  lemma PrefixSlice<T>(a: seq<T>, b: seq<T>, i: nat, j: nat)
    requires i <= j <= |a|
    ensures (a + b)[i..j] == a[i..j]
  {
  }

  lemma SuffixSlice<T>(a: seq<T>, b: seq<T>, j: nat)
    requires j == |a| + |b|
    ensures (a + b)[|a|..j] == b
  {
  }

  /** District d's statements are statements 7d - 6 to 7d of BEGIN, the districts' statements and COMMIT. */
  lemma ScriptAt(w: int, carrier: int, got: seq<DistrictReads>, d: nat)
    requires 1 <= d <= 10 <= |got|
    ensures ([Begin] + DeliveryDistricts(w, carrier, got, 10) + [Commit])[7 * d - 6 .. 7 * d + 1]
         == DistrictStmts(w, carrier, d, got[d - 1])
  {
    var ds := DeliveryDistricts(w, carrier, got, 10);
    DistrictsAt(w, carrier, got, 10, d);
    assert ([Begin] + ds + [Commit])[7 * d - 6 .. 7 * d + 1] == ds[7 * d - 7 .. 7 * d];
  }

  /** District d's statements are the transaction's statements 7d - 6 to 7d. */
  lemma DeliveryAt(w: int, carrier: int, server: nat -> string, d: nat)
    requires 1 <= d <= 10
    ensures DeliveryScript(w, carrier, server)[7 * d - 6 .. 7 * d + 1]
         == DistrictStmts(w, carrier, d, ReadsOf(w, d, server, 7 * d - 6))
  {
    var got := DistrictReadsOf(w, server);
    ScriptAt(w, carrier, got, d);
    DistrictReadsAt(w, server, d);
    assert DeliveryScript(w, carrier, server) == [Begin] + DeliveryDistricts(w, carrier, got, 10) + [Commit];
  }

  /** Scripts that send without raising stay so when put one after the other. */
  lemma SendableConcat(a: seq<Stmt>, b: seq<Stmt>)
    requires Sendable(a) && Sendable(b)
    ensures Sendable(a + b)
  {
    forall k | 0 <= k < |a + b|
      ensures !Raises((a + b)[k])
    {
      if k >= |a| {
        assert (a + b)[k] == b[k - |a|];
      }
    }
  }

  lemma {:induction false} DistrictsSendable(w: int, carrier: int, got: seq<DistrictReads>, n: nat)
    requires n <= |got|
    ensures Sendable(DeliveryDistricts(w, carrier, got, n))
  {
    if n > 0 {
      DistrictsSendable(w, carrier, got, n - 1);
      SendableConcat(DeliveryDistricts(w, carrier, got, n - 1), DistrictStmts(w, carrier, n, got[n - 1]));
    }
  }

  /** Every statement delivery sends renders. */
  lemma DeliverySendable(w: int, carrier: int, server: nat -> string)
    ensures Sendable(DeliveryScript(w, carrier, server))
  {
    var ds := DeliveryDistricts(w, carrier, DistrictReadsOf(w, server), 10);
    DistrictsSendable(w, carrier, DistrictReadsOf(w, server), 10);
    SendableConcat([Begin], ds);
    SendableConcat([Begin] + ds, [Commit]);
  }

  /** The replies delivery decodes: those to statements 7d - 6, 7d - 4, 7d - 2 and 7d - 1 of district d. */
  ghost predicate DeliveryReadable(server: nat -> string)
  {
    forall base: nat :: 1 <= base <= 64 && base % 7 == 1 ==> DistrictReadable(server, base)
  }

  /**
   * District reads at base decode: the new-order, customer and amount reads
   * select one column, the line read at base + 4 all of order_line's.
   */
  predicate DistrictReadable(server: nat -> string, base: nat)
  {
    DecodableReply(server(base), Ok(1)) && DecodableReply(server(base + 2), Ok(1)) &&
    DecodableReply(server(base + 4), Ok(TableWidth(OrderLine))) && DecodableReply(server(base + 5), Ok(1))
  }

  /** District d's replies are among those delivery decodes. */
  lemma ReadableAt(server: nat -> string, d: nat)
    requires DeliveryReadable(server) && 1 <= d <= 10
    ensures DistrictReadable(server, 7 * d - 6)
  {
    var base: nat := 7 * d - 6;
    assert base % 7 == 1;
  }

  /** What district d's reads yield, field by field, as the driver computes each. */
  lemma ReadsOfFields(w: int, d: int, server: nat -> string, base: nat)
    requires DistrictReadable(server, base)
    ensures ReadsOf(w, d, server, base).oId == ReadInt(NewOrderRead(w, d), server(base), 2101)
    ensures var x := ReadsOf(w, d, server, base);
      && x.oCId == ReadInt(OrderCustomerRead(w, d, x.oId), server(base + 2), 2101)
      && x.amount == DeliveredAmount(Reply(OrderLinesRead(w, d, x.oId, OneCol(OlAmount)), server(base + 5)))
  {
  }

  /** What district d of delivery starts from: its statements and its readable replies. */
  lemma DistrictSetup(w: int, carrier: int, server: nat -> string, d: nat)
    requires DeliveryReadable(server) && 1 <= d <= 10
    ensures DistrictReadable(server, 7 * d - 6)
    ensures DeliveryScript(w, carrier, server)[7 * d - 6 .. 7 * d + 1]
         == DistrictStmts(w, carrier, d, ReadsOf(w, d, server, 7 * d - 6))
  {
    DeliveryAt(w, carrier, server, d);
    ReadableAt(server, d);
  }

  /** `do_delivery`. */
  method DoDelivery(w: int, carrier: int, server: nat -> string) returns (res: SQLState, sent: seq<Stmt>)
    requires DeliveryReadable(server)
    ensures sent == Sent(DeliveryScript(w, carrier, server), server)
    ensures res == Outcome(DeliveryScript(w, carrier, server), server)
  {
    ghost var script := DeliveryScript(w, carrier, server);
    sent := [Begin];
    for d := 1 to 11
      invariant |sent| == 7 * d - 6 && sent == script[..|sent|]
      invariant ClearUpTo(script, server, |sent|)
    {
      var stop;
      sent, stop := DeliverDistrict(w, carrier, d, server, script, sent);
      if stop {
        return ABORT, sent;
      }
    }
    sent := SendCommit(script, server, sent);
    res := SUCCESS;
  }

  /**
   * One iteration of the district loop: the seven statements of district d,
   * or those up to the first aborting one.
   */
  method DeliverDistrict(w: int, carrier: int, d: nat, server: nat -> string, ghost script: seq<Stmt>,
                         sent0: seq<Stmt>) returns (sent: seq<Stmt>, stop: bool)
    requires DeliveryReadable(server) && 1 <= d <= 10 && script == DeliveryScript(w, carrier, server)
    requires |sent0| == 7 * d - 6 && sent0 == script[..|sent0|] && ClearUpTo(script, server, |sent0|)
    ensures stop ==> sent == Sent(script, server) && Outcome(script, server) == ABORT
    ensures !stop ==> |sent| == |sent0| + 7 && sent == script[..|sent|] && ClearUpTo(script, server, |sent|)
  {
    DistrictSetup(w, carrier, server, d);
    ReadsOfFields(w, d, server, 7 * d - 6);
    sent, stop := DeliverDistrictWith(w, carrier, d, server, script, sent0, ReadsOf(w, d, server, 7 * d - 6));
  }

  /**
   * The seven statements of district d, or those up to the first aborting
   * one, where the script holds them at the cursor and x is what its reads
   * yield.
   */
  method DeliverDistrictWith(w: int, carrier: int, d: nat, server: nat -> string, ghost script: seq<Stmt>,
                             sent0: seq<Stmt>, ghost x: DistrictReads) returns (sent: seq<Stmt>, stop: bool)
    requires 0 < |sent0| && |sent0| + 7 < |script| && DistrictReadable(server, |sent0|)
    requires script[|sent0| .. |sent0| + 7] == DistrictStmts(w, carrier, d, x)
    requires x.oId == ReadInt(NewOrderRead(w, d), server(|sent0|), 2101)
    requires x.oCId == ReadInt(OrderCustomerRead(w, d, x.oId), server(|sent0| + 2), 2101)
    requires x.amount == DeliveredAmount(Reply(OrderLinesRead(w, d, x.oId, OneCol(OlAmount)), server(|sent0| + 5)))
    requires sent0 == script[..|sent0|] && ClearUpTo(script, server, |sent0|)
    ensures stop ==> sent == Sent(script, server) && Outcome(script, server) == ABORT
    ensures !stop ==> |sent| == |sent0| + 7 && sent == script[..|sent|] && ClearUpTo(script, server, |sent|)
  {
    ghost var b := |sent0|;
    ghost var stmts := DistrictStmts(w, carrier, d, x);
    assert script[b] == stmts[0] && script[b + 1] == stmts[1] && script[b + 2] == stmts[2] && script[b + 3] == stmts[3];
    assert script[b + 4] == stmts[4] && script[b + 5] == stmts[5] && script[b + 6] == stmts[6];
    var oId, oCId;
    sent, stop, oId, oCId := TakeOldestOrder(w, carrier, d, server, script, sent0, x.oId);
    if stop {
      return;
    }
    sent, stop := SettleCustomer(w, d, oId, oCId, server, script, sent);
  }

  /**
   * The first four statements of district d: the oldest new order is read and
   * deleted, its customer read and its carrier set.
   */
  method TakeOldestOrder(w: int, carrier: int, d: nat, server: nat -> string, ghost script: seq<Stmt>,
                         sent0: seq<Stmt>, ghost oldest: int)
    returns (sent: seq<Stmt>, stop: bool, oId: int, oCId: int)
    requires 0 < |sent0| && |sent0| + 5 < |script|
    requires DecodableReply(server(|sent0|), Width(NewOrderRead(w, d)))
    requires DecodableReply(server(|sent0| + 2), Width(OrderCustomerRead(w, d, oldest)))
    requires oldest == ReadInt(NewOrderRead(w, d), server(|sent0|), 2101)
    requires script[|sent0|] == NewOrderRead(w, d)
    requires script[|sent0| + 1] == NewOrderDelete(w, d, oldest)
    requires script[|sent0| + 2] == OrderCustomerRead(w, d, oldest)
    requires script[|sent0| + 3] == CarrierUpdate(w, d, oldest, carrier)
    requires sent0 == script[..|sent0|] && ClearUpTo(script, server, |sent0|)
    ensures stop ==> sent == Sent(script, server) && Outcome(script, server) == ABORT
    ensures !stop ==> |sent| == |sent0| + 4 && sent == script[..|sent|] && ClearUpTo(script, server, |sent|)
    ensures !stop ==> oId == oldest && oCId == ReadInt(OrderCustomerRead(w, d, oldest), server(|sent0| + 2), 2101)
  {
    oId, oCId := 0, 0;
    var r;
    sent, r, stop := SendRead(script, server, sent0, NewOrderRead(w, d));
    if stop {
      return;
    }
    oId := FirstCellInt(r, 2101);
    assert oId == oldest;
    sent, stop := SendDml(script, server, sent, NewOrderDelete(w, d, oId));
    if stop {
      return;
    }
    sent, r, stop := SendRead(script, server, sent, OrderCustomerRead(w, d, oId));
    if stop {
      return;
    }
    oCId := FirstCellInt(r, 2101);
    sent, stop := SendDml(script, server, sent, CarrierUpdate(w, d, oId, carrier));
  }

  /**
   * The last three statements of district d: the order's lines are read
   * twice, the customer read sends nothing, and the customer's balance and
   * delivery count are written.
   */
  method SettleCustomer(w: int, d: nat, oId: int, oCId: int, server: nat -> string, ghost script: seq<Stmt>,
                        sent0: seq<Stmt>) returns (sent: seq<Stmt>, stop: bool)
    requires 0 < |sent0| && |sent0| + 3 < |script|
    requires DecodableReply(server(|sent0|), Width(OrderLinesRead(w, d, oId, AllCols)))
    requires DecodableReply(server(|sent0| + 1), Width(OrderLinesRead(w, d, oId, OneCol(OlAmount))))
    requires script[|sent0|] == OrderLinesRead(w, d, oId, AllCols)
    requires script[|sent0| + 1] == OrderLinesRead(w, d, oId, OneCol(OlAmount))
    requires script[|sent0| + 2] ==
             DeliveryCustomerUpdate(w, d, oCId, 0 + DeliveredAmount(Reply(OrderLinesRead(w, d, oId, OneCol(OlAmount)),
                                                                          server(|sent0| + 1))), 0)
    requires sent0 == script[..|sent0|] && ClearUpTo(script, server, |sent0|)
    ensures stop ==> sent == Sent(script, server) && Outcome(script, server) == ABORT
    ensures !stop ==> |sent| == |sent0| + 3 && sent == script[..|sent|] && ClearUpTo(script, server, |sent|)
  {
    var r;
    sent, r, stop := SendRead(script, server, sent0, OrderLinesRead(w, d, oId, AllCols));
    if stop {
      return;
    }
    sent, r, stop := SendRead(script, server, sent, OrderLinesRead(w, d, oId, OneCol(OlAmount)));
    if stop {
      return;
    }
    var amount := DeliveredAmount(r);
    sent, r, stop := SendRead(script, server, sent, DeliveryCustomerRead(w, d, oCId));
    var balance, cnt := 0, 0;
    sent, stop := SendDml(script, server, sent, DeliveryCustomerUpdate(w, d, oCId, balance + amount, cnt));
  }

  // ---------------------------------------------------------------------------
  // Stock-level

  function StockLevelDistrictRead(w: int, d: int): Stmt
  {
    Read([District], OneCol(DNextOId), Some([Eq(DWId, PInt(w)), Eq(DId, PInt(d))]), None, false)
  }

  /** The lines of the last twenty orders: `ol_o_id >= next - 20 and ol_o_id < next`. */
  function RecentLinesRead(w: int, d: int, next: int): Stmt
  {
    Read([OrderLine], AllCols, Some([Eq(OlWId, PInt(w)), Eq(OlDId, PInt(d)),
                                         Cond(OlOId, ">=", PInt(next - 20)),
                                         Cond(OlOId, "<", PInt(next))]), None, false)
  }

  function StockRead(w: int, level: int, item: string): Stmt
  {
    Read([Stock], OneCol(SQuantity), Some([Eq(SIId, PStr(item)), Eq(SWId, PInt(w)),
                                             Cond(SQuantity, "<", PInt(level))]), None, false)
  }

  /**
   * `set([order_line[4] for order_line in order_lines])`, or nothing when
   * the read gave no rows or a row is too short to index.
   */
  function LineItems(r: Result<SelectResult, PyError>): (items: set<string>)
    ensures r.Ok? && r.value.Rows? && (forall row :: row in r.value.rows ==> |row| > 4) ==>
              forall row :: row in r.value.rows ==> row[4] in items
    ensures forall x :: x in items ==>
              r.Ok? && r.value.Rows? && exists row :: row in r.value.rows && |row| > 4 && row[4] == x
  {
    if r.Ok? && r.value.Rows? && forall row :: row in r.value.rows ==> |row| > 4 then
      set row | row in r.value.rows :: row[4]
    else {}
  }

  /** `order` lists the set in some iteration order, each element once. */
  ghost predicate Enumerates(order: seq<string>, items: set<string>)
  {
    |order| == |items| && forall x :: x in items <==> x in order
  }

  /** The next order id the district read got (0 when it raises). */
  function NextOId(w: int, d: int, server: nat -> string): int
  {
    ReadInt(StockLevelDistrictRead(w, d), server(1), 0)
  }

  /**
   * What stock-level sends when nothing aborts: BEGIN, the district read,
   * the read of the last twenty orders' lines, one stock read per distinct
   * item in `order`, COMMIT.
   */
  function StockLevelScript(w: int, d: int, level: int, order: seq<string>, server: nat -> string): (r: seq<Stmt>)
    ensures |r| == 4 + |order| && r[0] == Begin && r[|r| - 1] == Commit
    ensures r[1] == StockLevelDistrictRead(w, d) && r[2] == RecentLinesRead(w, d, NextOId(w, d, server))
    ensures forall i :: 0 <= i < |order| ==> r[3 + i] == StockRead(w, level, order[i])
  {
    var head := [Begin, StockLevelDistrictRead(w, d), RecentLinesRead(w, d, NextOId(w, d, server))];
    var stocks := StockReads(w, level, order);
    forall i | 0 <= i < |order|
      ensures (head + stocks + [Commit])[3 + i] == StockRead(w, level, order[i])
    {
      MiddleIndex(head, stocks, [Commit], i);
    }
    head + stocks + [Commit]
  }

  /** One stock read per item of `order`, in that order. */
  function StockReads(w: int, level: int, order: seq<string>): (r: seq<Stmt>)
    ensures |r| == |order| && forall i :: 0 <= i < |order| ==> r[i] == StockRead(w, level, order[i])
  {
    seq(|order|, i requires 0 <= i < |order| => StockRead(w, level, order[i]))
  }

  /** The element at |a| + i of a + b + c is b[i]. */
  lemma MiddleIndex<T>(a: seq<T>, b: seq<T>, c: seq<T>, i: nat)
    requires i < |b|
    ensures (a + b + c)[|a| + i] == b[i]
  {
  }

  /** No statement of the stock-level script raises in its builder. */
  lemma StockLevelSendable(w: int, d: int, level: int, order: seq<string>, server: nat -> string)
    ensures Sendable(StockLevelScript(w, d, level, order, server))
  {
    var script := StockLevelScript(w, d, level, order, server);
    forall k | 0 <= k < |script|
      ensures !Raises(script[k])
    {
      if k == 1 {
        assert script[1] == StockLevelDistrictRead(w, d);
      } else if k == 2 {
        assert script[2] == RecentLinesRead(w, d, NextOId(w, d, server));
      } else if 3 <= k < 3 + |order| {
        assert script[3 + (k - 3)] == StockRead(w, level, order[k - 3]);
      }
    }
  }

  /**
   * `do_stock_level`; `order` is the iteration order of the set of items
   * the recent lines name, one stock read per distinct item.
   */
  method DoStockLevel(w: int, d: int, level: int, order: seq<string>, server: nat -> string)
    returns (res: SQLState, sent: seq<Stmt>)
    requires DecodableReply(server(1), Width(StockLevelDistrictRead(w, d)))
    requires DecodableReply(server(2), Width(RecentLinesRead(w, d, NextOId(w, d, server))))
    requires forall k: nat :: 3 <= k < 3 + |order| ==> DecodableReply(server(k), Ok(1))
    requires Enumerates(order, LineItems(Reply(RecentLinesRead(w, d, NextOId(w, d, server)), server(2))))
    ensures sent == Sent(StockLevelScript(w, d, level, order, server), server)
    ensures res == Outcome(StockLevelScript(w, d, level, order, server), server)
  {
    ghost var script := StockLevelScript(w, d, level, order, server);
    sent := [Begin];
    var stop, r;
    sent, r, stop := SendRead(script, server, sent, StockLevelDistrictRead(w, d));
    if stop {
      return ABORT, sent;
    }
    var next := FirstCellInt(r, 0);
    assert next == NextOId(w, d, server);
    sent, r, stop := SendRead(script, server, sent, RecentLinesRead(w, d, next));
    if stop {
      return ABORT, sent;
    }
    sent, stop := SendStockReads(w, level, order, server, script, sent);
    if stop {
      return ABORT, sent;
    }
    sent := SendCommit(script, server, sent);
    res := SUCCESS;
  }

  /** The loop over the distinct items: one stock read each, stopping at an abort. */
  method SendStockReads(w: int, level: int, order: seq<string>, server: nat -> string, ghost script: seq<Stmt>,
                        sent0: seq<Stmt>) returns (sent: seq<Stmt>, stop: bool)
    requires |script| == 4 + |order| && forall i :: 0 <= i < |order| ==> script[3 + i] == StockRead(w, level, order[i])
    requires forall k: nat :: 3 <= k < 3 + |order| ==> DecodableReply(server(k), Ok(1))
    requires |sent0| == 3 && sent0 == script[..3] && ClearUpTo(script, server, 3)
    ensures stop ==> sent == Sent(script, server) && Outcome(script, server) == ABORT
    ensures !stop ==> |sent| == 3 + |order| && sent == script[..|sent|] && ClearUpTo(script, server, |sent|)
  {
    sent := sent0;
    for i := 0 to |order|
      invariant |sent| == 3 + i && sent == script[..|sent|]
      invariant ClearUpTo(script, server, |sent|)
    {
      var r;
      sent, r, stop := SendRead(script, server, sent, StockRead(w, level, order[i]));
      if stop {
        return;
      }
    }
    stop := false;
  }
}
