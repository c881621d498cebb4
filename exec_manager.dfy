// The query output of the execution manager
// (src/execution/execution_manager.cpp): select_from prints at most
// limit_num rows of the plan's output, and select_from_with_aggregate folds
// one column into a single aggregate value. The plan is given as the
// records its root executor yields, in order; the output file is a string
// the text is appended to when output is enabled. What is sent back to the
// client (RecordPrinter) is not part of this model; the row count it prints
// is returned.
module ExecManager {
  import opened Wrappers
  import opened Errors
  import opened PyStr
  import opened Values
  import opened Catalog

  /** The largest size_t: limit_num when the query has no LIMIT. */
  const SIZE_MAX: nat := 0xffff_ffff_ffff_ffff

  /** Bytes read as characters. */
  function Chars(bs: seq<byte>): (s: string)
    ensures |s| == |bs| && forall i :: 0 <= i < |bs| ==> s[i] as int == bs[i]
  {
    seq(|bs|, i requires 0 <= i < |bs| => bs[i] as char)
  }

  /** The bytes before the first zero byte (strlen). */
  function CutAtNul(bs: seq<byte>): (r: seq<byte>)
    ensures |r| <= |bs| && r == bs[..|r|]
    ensures forall i :: 0 <= i < |r| ==> r[i] != 0
    ensures |r| < |bs| ==> bs[|r|] == 0
  {
    if bs == [] || bs[0] == 0 then [] else [bs[0]] + CutAtNul(bs[1..])
  }

  /** A column lies inside the record, with room for its number if it is one. */
  predicate Fits(col: ColMeta, rec: seq<byte>)
  {
    && col.offset + col.len <= |rec|
    && (col.colType == TypeInt ==> col.len >= 4)
    && (col.colType == TypeBigint ==> col.len >= 8)
  }

  function FieldOf(col: ColMeta, rec: seq<byte>): (f: seq<byte>)
    requires Fits(col, rec)
    ensures |f| == col.len
  {
    rec[col.offset..col.offset + col.len]
  }

  /** Every column lies inside rec. */
  predicate Laid(cols: seq<ColMeta>, rec: seq<byte>)
  {
    forall c :: c in cols ==> Fits(c, rec)
  }

  predicate NoFloat(cols: seq<ColMeta>)
  {
    forall c :: c in cols ==> c.colType != TypeFloat
  }

  /** The len bytes a memcpy of len bytes reads from src (zeros past its end). */
  function Padded(src: seq<byte>, len: nat): (p: seq<byte>)
    ensures |p| == len
    ensures len <= |src| ==> p == src[..len]
  {
    if len <= |src| then src[..len] else src + Zeros(len - |src|)
  }

  /** memcpy(tuple + c.offset, src, c.len). */
  function Place(tuple: seq<byte>, c: ColMeta, src: seq<byte>): (t: seq<byte>)
    requires Fits(c, tuple)
    ensures |t| == |tuple| && Fits(c, t) && FieldOf(c, t) == Padded(src, c.len)
    ensures forall i :: 0 <= i < |tuple| && !(c.offset <= i < c.offset + c.len) ==> t[i] == tuple[i]
  {
    tuple[..c.offset] + Padded(src, c.len) + tuple[c.offset + c.len..]
  }

  /** val.convert_value_to_col_type_and_fill(col), on a Value holding the literal. */
  method ConvertValue(l: Literal, lc: ColMeta) returns (r: Result<Literal, DbError>)
    requires lc.colType != TypeFloat && InRange(l)
    ensures r == Converted(l, lc.colType, lc.len)
  {
    var v := new Value(l.litType, l.num, l.raw);
    var c := v.ConvertToColType(lc.colType, lc.len);
    if c.Err? {
      return Err(c.error);
    }
    return Ok(Literal(v.valType, v.num, v.raw));
  }

  /**
   * A column's value as printed: the number for INT and BIGINT, and for
   * STRING and DATETIME the field's text up to its first zero byte.
   */
  function CellText(col: ColMeta, rec: seq<byte>): (s: string)
    requires Fits(col, rec) && col.colType != TypeFloat
    ensures col.colType == TypeString || col.colType == TypeDatetime ==>
      |s| <= col.len && forall i :: 0 <= i < |s| ==> s[i] as int == rec[col.offset + i] != 0
  {
    match col.colType
    case TypeInt => IntToString(ReadInt32(FieldOf(col, rec)))
    case TypeBigint => IntToString(ReadInt64(FieldOf(col, rec)))
    case TypeString => Chars(CutAtNul(FieldOf(col, rec)))
    case TypeDatetime => Chars(CutAtNul(FieldOf(col, rec)))
    case TypeFloat => ""
  }

  /** Every column fits the record and none is FLOAT. */
  predicate Printable(cols: seq<ColMeta>, rec: seq<byte>)
  {
    forall j :: 0 <= j < |cols| ==> Fits(cols[j], rec) && cols[j].colType != TypeFloat
  }

  /** Every record has every column. */
  predicate AllPrintable(cols: seq<ColMeta>, recs: seq<seq<byte>>)
  {
    forall i :: 0 <= i < |recs| ==> Printable(cols, recs[i])
  }

  lemma AllPrintablePrefix(cols: seq<ColMeta>, recs: seq<seq<byte>>, n: nat)
    requires AllPrintable(cols, recs) && n <= |recs|
    ensures AllPrintable(cols, recs[..n])
  {
    forall i | 0 <= i < n ensures Printable(cols, recs[..n][i]) {
      assert recs[..n][i] == recs[i];
    }
  }

  /** The cells of a record, one per column. */
  function Cells(cols: seq<ColMeta>, rec: seq<byte>): (cells: seq<string>)
    requires Printable(cols, rec)
    ensures |cells| == |cols|
  {
    seq(|cols|, i requires 0 <= i < |cols| => CellText(cols[i], rec))
  }

  /** ` v |` for each cell. */
  function CellsText(cells: seq<string>): string
  {
    if cells == [] then "" else CellsText(cells[..|cells| - 1]) + " " + cells[|cells| - 1] + " |"
  }

  /** A line of the output file: `|`, then ` v |` per cell, then a newline. */
  function RowLine(cells: seq<string>): string
  {
    "|" + CellsText(cells) + "\n"
  }

  /** The row lines of the records, in order. */
  function RowsText(cols: seq<ColMeta>, recs: seq<seq<byte>>): string
    requires AllPrintable(cols, recs)
  {
    if recs == [] then ""
    else
      AllPrintablePrefix(cols, recs, |recs| - 1);
      RowsText(cols, recs[..|recs| - 1]) + RowLine(Cells(cols, recs[|recs| - 1]))
  }

  /** How often a character occurs in a string. */
  function Count(s: string, c: char): nat
  {
    multiset(s)[c]
  }

  /** The cells hold one `|` per cell and no newline when they hold neither. */
  lemma {:induction false} CellsTextCounts(cells: seq<string>)
    requires forall k, i :: 0 <= k < |cells| && 0 <= i < |cells[k]| ==> cells[k][i] != '|' && cells[k][i] != '\n'
    ensures Count(CellsText(cells), '|') == |cells| && Count(CellsText(cells), '\n') == 0
    decreases |cells|
  {
    if cells != [] {
      var n := |cells| - 1;
      var pre := cells[..n];
      assert forall k, i :: 0 <= k < |pre| && 0 <= i < |pre[k]| ==> pre[k][i] != '|' && pre[k][i] != '\n' by {
        forall k, i | 0 <= k < |pre| && 0 <= i < |pre[k]| ensures pre[k][i] != '|' && pre[k][i] != '\n' {
          assert pre[k] == cells[k];
        }
      }
      CellsTextCounts(pre);
      var cell := cells[n];
      assert '|' !in cell && '\n' !in cell;
      assert CellsText(cells) == CellsText(pre) + " " + cell + " |";
      PieceCounts(CellsText(pre), cell);
    }
  }

  /** Appending one cell adds one `|` and no newline. */
  lemma PieceCounts(pre: string, cell: string)
    requires '|' !in cell && '\n' !in cell
    ensures Count(pre + " " + cell + " |", '|') == Count(pre, '|') + 1
    ensures Count(pre + " " + cell + " |", '\n') == Count(pre, '\n')
  {
    assert multiset(pre + " " + cell + " |") == multiset(pre) + multiset(" ") + multiset(cell) + multiset(" |");
  }

  /**
   * A row line of cells free of `|` and newlines holds one `|` more than it
   * has cells and exactly one newline, at its end: the columns and the rows
   * can be told apart in the output file.
   */
  lemma RowLineShape(cells: seq<string>)
    requires forall k, i :: 0 <= k < |cells| && 0 <= i < |cells[k]| ==> cells[k][i] != '|' && cells[k][i] != '\n'
    ensures Count(RowLine(cells), '|') == |cells| + 1
    ensures Count(RowLine(cells), '\n') == 1 && RowLine(cells)[|RowLine(cells)| - 1] == '\n'
  {
    CellsTextCounts(cells);
  }

  /** The output line for the cells, written cell by cell. */
  method AppendRow(ss: string, cells: seq<string>) returns (out: string)
    ensures out == ss + RowLine(cells)
  {
    var line := "|";
    for i := 0 to |cells|
      invariant line == "|" + CellsText(cells[..i])
    {
      assert cells[..i + 1][..i] == cells[..i];
      line := line + " " + cells[i] + " |";
    }
    assert cells[..|cells|] == cells;
    out := ss + line + "\n";
  }

  /** The printed values of a record's columns, column by column. */
  method CellsOf(cols: seq<ColMeta>, rec: seq<byte>) returns (columns: seq<string>)
    requires Printable(cols, rec)
    ensures columns == Cells(cols, rec)
  {
    ghost var cells := Cells(cols, rec);
    columns := [];
    for i := 0 to |cols|
      invariant columns == cells[..i]
    {
      var cell := CellText(cols[i], rec);
      CellsSnoc(cells, i, cell);
      columns := columns + [cell];
    }
    assert cells[..|cols|] == cells;
  }

  /** Extending the first i cells by cell i gives the first i + 1. */
  lemma CellsSnoc(cells: seq<string>, i: nat, cell: string)
    requires i < |cells| && cells[i] == cell
    ensures cells[..i] + [cell] == cells[..i + 1]
  {
  }

  /** The line of the next record, appended after the lines of the ones before it. */
  method PrintRecord(rows: string, cols: seq<ColMeta>, tuples: seq<seq<byte>>, n: nat) returns (rows': string)
    requires AllPrintable(cols, tuples) && n < |tuples|
    requires AllPrintable(cols, tuples[..n]) && rows == RowsText(cols, tuples[..n])
    ensures AllPrintable(cols, tuples[..n + 1]) && rows' == RowsText(cols, tuples[..n + 1])
  {
    var columns := CellsOf(cols, tuples[n]);
    AllPrintablePrefix(cols, tuples, n + 1);
    assert tuples[..n + 1][..n] == tuples[..n] && tuples[..n + 1][n] == tuples[n];
    rows' := AppendRow(rows, columns);
  }

  /**
   * select_from: the header line of the captions, then one line per record
   * for the first limit_num records (all of them when there are fewer),
   * appended to the output file when it is enabled. Returns the number of
   * records printed. FLOAT columns are not part of this model.
   */
  method SelectFrom(captions: seq<string>, cols: seq<ColMeta>, tuples: seq<seq<byte>>, limit: nat,
                    enable: bool, file: string) returns (out: string, numRec: nat)
    requires AllPrintable(cols, tuples)
    ensures numRec == (if limit < |tuples| then limit else |tuples|)
    ensures limit == SIZE_MAX && |tuples| <= SIZE_MAX ==> numRec == |tuples|
    ensures AllPrintable(cols, tuples[..numRec])
    ensures out == file + (if enable then RowLine(captions) + RowsText(cols, tuples[..numRec]) else "")
  {
    var header := AppendRow("", captions);
    assert header == RowLine(captions);
    var rows := "";
    numRec := 0;
    while numRec < |tuples| && numRec < limit
      invariant numRec <= |tuples| && numRec <= limit
      invariant AllPrintable(cols, tuples[..numRec])
      invariant rows == RowsText(cols, tuples[..numRec])
    {
      rows := PrintRecord(rows, cols, tuples, numRec);
      numRec := numRec + 1;
    }
    out := if enable then file + (header + rows) else file;
  }

  // ---------------------------------------------------------------------
  // Aggregates.

  /** The sum of the values. */
  function Sum(vals: seq<int>): int
  {
    if vals == [] then 0 else Sum(vals[..|vals| - 1]) + vals[|vals| - 1]
  }

  /** The largest of the values. */
  function SeqMax(vals: seq<int>): int
    requires vals != []
  {
    var n := |vals| - 1;
    if n == 0 then vals[0] else
      var m := SeqMax(vals[..n]);
      if m > vals[n] then m else vals[n]
  }

  /** The smallest of the values. */
  function SeqMin(vals: seq<int>): int
    requires vals != []
  {
    var n := |vals| - 1;
    if n == 0 then vals[0] else
      var m := SeqMin(vals[..n]);
      if m < vals[n] then m else vals[n]
  }

  /** SeqMax is one of the values and no value exceeds it. */
  lemma {:induction false} SeqMaxIsMax(vals: seq<int>)
    requires vals != []
    ensures SeqMax(vals) in vals && forall v :: v in vals ==> v <= SeqMax(vals)
    decreases |vals|
  {
    var n := |vals| - 1;
    if n > 0 {
      SeqMaxIsMax(vals[..n]);
      assert vals == vals[..n] + [vals[n]];
    }
  }

  /** SeqMin is one of the values and no value is below it. */
  lemma {:induction false} SeqMinIsMin(vals: seq<int>)
    requires vals != []
    ensures SeqMin(vals) in vals && forall v :: v in vals ==> SeqMin(vals) <= v
    decreases |vals|
  {
    var n := |vals| - 1;
    if n > 0 {
      SeqMinIsMin(vals[..n]);
      assert vals == vals[..n] + [vals[n]];
    }
  }

  /** The INT column's values of the records. */
  function IntColumn(col: ColMeta, tuples: seq<seq<byte>>): (vals: seq<int>)
    requires col.colType == TypeInt && forall i :: 0 <= i < |tuples| ==> Fits(col, tuples[i])
    ensures |vals| == |tuples|
  {
    seq(|tuples|, i requires 0 <= i < |tuples| => ReadInt32(FieldOf(col, tuples[i])))
  }

  /**
   * The INT aggregate: the sum truncated to int for SUM, the largest value
   * or 0 if that is larger for MAX (the result starts at 0), the smallest
   * value for MIN, and 0 when there are no rows to take it from or the
   * aggregate is COUNT.
   */
  function IntAggregate(agg: AggType, vals: seq<int>): int
  {
    match agg
    case AggSum => Wrap32(Sum(vals))
    case AggMax => if vals == [] || SeqMax(vals) < 0 then 0 else SeqMax(vals)
    case AggMin => if vals == [] then 0 else SeqMin(vals)
    case _ => 0
  }

  /** num_rec at the end of the fold: at most 1 for MAX and MIN, the row count otherwise. */
  function ReportedCount(agg: AggType, n: nat): nat
  {
    if (agg == AggMax || agg == AggMin) && n > 0 then 1 else n
  }

  /**
   * What the aggregates mean: MAX is at least 0 and every value and is 0 or
   * a value; MIN over rows is a value no value is below; SUM is congruent
   * to the true sum modulo 2^32 and equal to it when that fits in an int.
   */
  lemma IntAggregateMeaning(agg: AggType, vals: seq<int>)
    ensures agg == AggMax ==> var r := IntAggregate(agg, vals);
      r >= 0 && (forall v :: v in vals ==> v <= r) && (r == 0 || r in vals)
    ensures agg == AggMin && vals != [] ==> var r := IntAggregate(agg, vals);
      r in vals && forall v :: v in vals ==> r <= v
    ensures agg == AggSum ==> var r := IntAggregate(agg, vals);
      IsInt32(r) && (Sum(vals) - r) % 0x1_0000_0000 == 0 && (IsInt32(Sum(vals)) ==> r == Sum(vals))
  {
    if vals != [] {
      SeqMaxIsMax(vals);
      SeqMinIsMin(vals);
    }
  }

  /** Two numbers that agree modulo 2^32 truncate to the same int. */
  lemma Wrap32Congruent(x: int, y: int)
    requires (x - y) % 0x1_0000_0000 == 0
    ensures Wrap32(x) == Wrap32(y)
  {
    var k := (x - y) / 0x1_0000_0000;
    assert x == y + k * 0x1_0000_0000;
    assert x % 0x1_0000_0000 == y % 0x1_0000_0000 by {
      ModOfSplit(x, 0x1_0000_0000, y / 0x1_0000_0000 + k, y % 0x1_0000_0000);
    }
  }

  /** The INT fold of select_from_with_aggregate over the column's values. */
  method FoldInt(agg: AggType, vals: seq<int>) returns (res: int, numRec: nat)
    ensures res == IntAggregate(agg, vals) && numRec == ReportedCount(agg, |vals|)
  {
    res := 0;
    numRec := 0;
    for i := 0 to |vals|
      invariant res == IntAggregate(agg, vals[..i]) && numRec == ReportedCount(agg, i)
    {
      var cur := vals[i];
      assert vals[..i + 1][..i] == vals[..i] && vals[..i + 1][i] == cur;
      if agg == AggSum {
        Wrap32Congruent(res + cur, Sum(vals[..i]) + cur);
        res := Wrap32(res + cur);
      } else if agg == AggMax {
        res := if res > cur then res else cur;
      } else if agg == AggMin {
        if numRec == 0 {
          res := cur;
        } else {
          res := if res < cur then res else cur;
        }
      }
      if agg == AggMax || agg == AggMin {
        numRec := 1;
      } else {
        numRec := numRec + 1;
      }
    }
    assert vals[..|vals|] == vals;
  }

  /** The largest of equally long byte strings in std::string order. */
  function LexMax(vals: seq<seq<byte>>): seq<byte>
    requires vals != []
  {
    var n := |vals| - 1;
    if n == 0 then vals[0] else
      var m := LexMax(vals[..n]);
      if LexLess(vals[n], m) then m else vals[n]
  }

  /** The smallest of equally long byte strings in std::string order. */
  function LexMin(vals: seq<seq<byte>>): seq<byte>
    requires vals != []
  {
    var n := |vals| - 1;
    if n == 0 then vals[0] else
      var m := LexMin(vals[..n]);
      if LexLess(m, vals[n]) then m else vals[n]
  }

  /** LexMax is one of the strings and none is above it. */
  lemma {:induction false} LexMaxIsMax(vals: seq<seq<byte>>)
    requires vals != []
    ensures LexMax(vals) in vals && forall v :: v in vals ==> !LexLess(LexMax(vals), v)
    decreases |vals|
  {
    var n := |vals| - 1;
    if n > 0 {
      var pre, x := vals[..n], vals[n];
      LexMaxIsMax(pre);
      var m := LexMax(pre);
      assert LexMax(vals) == if LexLess(x, m) then m else x;
      assert vals == pre + [x];
      assert m in vals && x in vals;
      forall v | v in vals ensures !LexLess(LexMax(vals), v) {
        LexLessIrreflexive(x);
        if LexLess(x, m) {
          if v == x && LexLess(m, x) {
            LexLessTransitive(x, m, x);
          }
        } else if v != x {
          assert v in pre;
          LexLessTotal(m, v);
          if LexLess(x, v) && LexLess(v, m) {
            LexLessTransitive(x, v, m);
          }
        }
      }
    } else {
      LexLessIrreflexive(vals[0]);
    }
  }

  /** LexMin is one of the strings and none is below it. */
  lemma {:induction false} LexMinIsMin(vals: seq<seq<byte>>)
    requires vals != []
    ensures LexMin(vals) in vals && forall v :: v in vals ==> !LexLess(v, LexMin(vals))
    decreases |vals|
  {
    var n := |vals| - 1;
    if n > 0 {
      var pre, x := vals[..n], vals[n];
      LexMinIsMin(pre);
      var m := LexMin(pre);
      assert LexMin(vals) == if LexLess(m, x) then m else x;
      assert vals == pre + [x];
      assert m in vals && x in vals;
      forall v | v in vals ensures !LexLess(v, LexMin(vals)) {
        LexLessIrreflexive(x);
        if LexLess(m, x) {
          if v == x && LexLess(x, m) {
            LexLessTransitive(x, m, x);
          }
        } else if v != x {
          assert v in pre;
          LexLessTotal(m, v);
          if LexLess(v, x) && LexLess(m, v) {
            LexLessTransitive(m, v, x);
          }
        }
      }
    } else {
      LexLessIrreflexive(vals[0]);
    }
  }

  /** The STRING or DATETIME column's fields of the records. */
  function TextColumn(col: ColMeta, tuples: seq<seq<byte>>): (vals: seq<seq<byte>>)
    requires forall i :: 0 <= i < |tuples| ==> Fits(col, tuples[i])
    ensures |vals| == |tuples| && forall v :: v in vals ==> |v| == col.len
  {
    seq(|tuples|, i requires 0 <= i < |tuples| => FieldOf(col, tuples[i]))
  }

  /**
   * The STRING/DATETIME aggregate: AggregateError for SUM over any row;
   * otherwise the largest field for MAX, the smallest for MIN and nothing
   * (an empty result) for COUNT and for no rows.
   */
  function TextAggregate(agg: AggType, vals: seq<seq<byte>>): Result<seq<byte>, DbError>
  {
    if vals == [] then Ok([])
    else match agg
      case AggSum => Err(AggregateError)
      case AggMax => Ok(LexMax(vals))
      case AggMin => Ok(LexMin(vals))
      case _ => Ok([])
  }

  /** The STRING/DATETIME fold of select_from_with_aggregate over the column's fields. */
  method FoldText(agg: AggType, vals: seq<seq<byte>>) returns (r: Result<seq<byte>, DbError>, numRec: nat)
    ensures r == TextAggregate(agg, vals)
    ensures r.Ok? ==> numRec == ReportedCount(agg, |vals|)
  {
    var res: seq<byte> := [];
    numRec := 0;
    for i := 0 to |vals|
      invariant TextAggregate(agg, vals[..i]) == Ok(res) && numRec == ReportedCount(agg, i)
    {
      var cur := vals[i];
      assert vals[..i + 1][..i] == vals[..i] && vals[..i + 1][i] == cur;
      if agg == AggSum {
        return Err(AggregateError), numRec;
      } else if agg == AggMax {
        if numRec == 0 {
          res := cur;
        } else {
          res := if LexLess(cur, res) then res else cur;
        }
      } else if agg == AggMin {
        if numRec == 0 {
          res := cur;
        } else {
          res := if LexLess(res, cur) then res else cur;
        }
      }
      if agg == AggMax || agg == AggMin {
        numRec := 1;
      } else {
        numRec := numRec + 1;
      }
    }
    assert vals[..|vals|] == vals;
    r := Ok(res);
  }

  /**
   * The STRING aggregates' meaning: MAX is a field no field is above, MIN
   * one no field is below.
   */
  lemma TextAggregateMeaning(agg: AggType, vals: seq<seq<byte>>)
    requires vals != []
    ensures agg == AggMax ==> TextAggregate(agg, vals).Ok? && var m := TextAggregate(agg, vals).value;
      m in vals && forall v :: v in vals ==> !LexLess(m, v)
    ensures agg == AggMin ==> TextAggregate(agg, vals).Ok? && var m := TextAggregate(agg, vals).value;
      m in vals && forall v :: v in vals ==> !LexLess(v, m)
    ensures agg == AggSum <==> TextAggregate(agg, vals).Err?
  {
    LexMaxIsMax(vals);
    LexMinIsMin(vals);
  }

  /** The INT column read from each record in turn. */
  method IntColumnOf(col: ColMeta, tuples: seq<seq<byte>>) returns (vals: seq<int>)
    requires col.colType == TypeInt && forall i :: 0 <= i < |tuples| ==> Fits(col, tuples[i])
    ensures vals == IntColumn(col, tuples)
  {
    vals := [];
    for i := 0 to |tuples|
      invariant |vals| == i && forall k :: 0 <= k < i ==> vals[k] == ReadInt32(FieldOf(col, tuples[k]))
    {
      vals := vals + [ReadInt32(FieldOf(col, tuples[i]))];
    }
  }

  /** The STRING/DATETIME field read from each record in turn. */
  method TextColumnOf(col: ColMeta, tuples: seq<seq<byte>>) returns (vals: seq<seq<byte>>)
    requires forall i :: 0 <= i < |tuples| ==> Fits(col, tuples[i])
    ensures vals == TextColumn(col, tuples)
  {
    vals := [];
    for i := 0 to |tuples|
      invariant |vals| == i && forall k :: 0 <= k < i ==> vals[k] == FieldOf(col, tuples[k])
    {
      vals := vals + [FieldOf(col, tuples[i])];
    }
  }

  /** The value printed for an aggregate. */
  function AggCell(agg: AggType, col: ColMeta, tuples: seq<seq<byte>>): Result<string, DbError>
    requires col.colType == TypeInt || col.colType == TypeString || col.colType == TypeDatetime
    requires forall i :: 0 <= i < |tuples| ==> Fits(col, tuples[i])
  {
    if col.colType == TypeInt then
      if agg == AggCount then Ok(IntToString(|tuples|))
      else Ok(IntToString(IntAggregate(agg, IntColumn(col, tuples))))
    else
      match TextAggregate(agg, TextColumn(col, tuples))
      case Err(e) => Err(e)
      case Ok(m) => if agg == AggCount then Ok(IntToString(|tuples|)) else Ok(Chars(m))
  }

  /**
   * select_from_with_aggregate for one aggregate over an INT, STRING or
   * DATETIME column: AggregateError leaves the output file as it was;
   * otherwise the alias line and the value line are appended to it when it
   * is enabled. Returns the row count the client is shown.
   */
  method SelectWithAggregate(alias: string, agg: AggType, col: ColMeta, tuples: seq<seq<byte>>,
                             enable: bool, file: string) returns (r: Result<string, DbError>, out: string, numRec: nat)
    requires col.colType == TypeInt || col.colType == TypeString || col.colType == TypeDatetime
    requires forall i :: 0 <= i < |tuples| ==> Fits(col, tuples[i])
    ensures r == AggCell(agg, col, tuples)
    ensures r.Err? ==> out == file
    ensures r.Ok? ==>
      && numRec == ReportedCount(agg, |tuples|)
      && out == file + (if enable then RowLine([alias]) + RowLine([r.value]) else "")
  {
    var ss := AppendRow("", [alias]);
    assert ss == RowLine([alias]);
    var cell: string;
    if col.colType == TypeInt {
      var vals := IntColumnOf(col, tuples);
      var res;
      res, numRec := FoldInt(agg, vals);
      cell := if agg == AggCount then IntToString(numRec) else IntToString(res);
    } else {
      var vals := TextColumnOf(col, tuples);
      var res;
      res, numRec := FoldText(agg, vals);
      if res.Err? {
        return Err(res.error), file, numRec;
      }
      cell := if agg == AggCount then IntToString(numRec) else Chars(res.value);
    }
    ss := AppendRow(ss, [cell]);
    r := Ok(cell);
    out := if enable then file + ss else file;
  }
}
