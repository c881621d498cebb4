// get_values of the insert executor (executor_insert.h), which LOAD
// uses: the fields of the next line of a comma-separated file read char
// by char through the double-buffered reader, each set into a value of
// its column's type as soon as it is read.
module LoadValues {
  import opened Wrappers
  import opened Errors
  import opened PyStr
  import opened Values
  import opened Catalog
  import opened ExecManager
  import opened LoadFile
  import opened FieldValues
  import opened FieldRead

  /** Every value is within its type's range. */
  predicate AllInRange(vals: seq<Literal>)
  {
    forall k :: 0 <= k < |vals| ==> InRange(vals[k])
  }

  /** Every field of the line converts to its column's type. */
  predicate AllLoad(fields: seq<seq<byte>>, cols: seq<ColMeta>)
    requires |fields| <= |cols| && forall k :: 0 <= k < |fields| ==> FieldFits(cols[k], fields[k])
  {
    forall k :: 0 <= k < |fields| ==> FieldValue(cols[k], fields[k]).Ok?
  }

  /** All fields load when all but the last do and the last does. */
  lemma AllLoadLast(fields: seq<seq<byte>>, cols: seq<ColMeta>)
    requires 0 < |fields| <= |cols| && forall k :: 0 <= k < |fields| ==> FieldFits(cols[k], fields[k])
    ensures AllLoad(fields, cols) <==> AllLoad(fields[..|fields| - 1], cols) && FieldValue(cols[|fields| - 1], fields[|fields| - 1]).Ok?
  {
    var n := |fields| - 1;
    assert forall k :: 0 <= k < n ==> fields[..n][k] == fields[k];
  }

  /** The values of a line's fields, one per column from the first; the first failing field's error. */
  function RowValues(fields: seq<seq<byte>>, cols: seq<ColMeta>): (r: Result<seq<Literal>, DbError>)
    requires |fields| <= |cols| && forall k :: 0 <= k < |fields| ==> FieldFits(cols[k], fields[k])
    ensures r.Ok? <==> AllLoad(fields, cols)
    ensures r.Ok? ==> |r.value| == |fields|
    ensures r.Err? ==> r.error == ResultOutOfRange
    decreases |fields|
  {
    if fields == [] then Ok([])
    else
      var n := |fields| - 1;
      assert forall k :: 0 <= k < n ==> fields[..n][k] == fields[k];
      AllLoadLast(fields, cols);
      var prev := RowValues(fields[..n], cols);
      var v := FieldValue(cols[n], fields[n]);
      if prev.Err? then prev
      else if v.Err? then Err(v.error)
      else Ok(prev.value + [v.value])
  }

  /** Value k of a line that loads is field k set into column k's type. */
  lemma RowValuesAre(fields: seq<seq<byte>>, cols: seq<ColMeta>)
    requires |fields| <= |cols| && forall k :: 0 <= k < |fields| ==> FieldFits(cols[k], fields[k])
    requires RowValues(fields, cols).Ok?
    ensures forall k :: 0 <= k < |fields| ==> FieldValue(cols[k], fields[k]) == Ok(RowValues(fields, cols).value[k])
  {
    forall k | 0 <= k < |fields|
      ensures FieldValue(cols[k], fields[k]) == Ok(RowValues(fields, cols).value[k])
    {
      RowValueAt(fields, cols, k);
    }
  }

  lemma {:induction false} RowValueAt(fields: seq<seq<byte>>, cols: seq<ColMeta>, k: nat)
    requires |fields| <= |cols| && forall k :: 0 <= k < |fields| ==> FieldFits(cols[k], fields[k])
    requires RowValues(fields, cols).Ok? && k < |fields|
    ensures FieldValue(cols[k], fields[k]) == Ok(RowValues(fields, cols).value[k])
    decreases |fields|
  {
    var n := |fields| - 1;
    RowValuesLast(fields, cols);
    if k < n {
      RowValueAt(fields[..n], cols, k);
      assert fields[..n][k] == fields[k];
    }
  }

  /** The values of a line that loads: those of all fields but the last, then the last one's. */
  lemma RowValuesLast(fields: seq<seq<byte>>, cols: seq<ColMeta>)
    requires 0 < |fields| <= |cols| && forall k :: 0 <= k < |fields| ==> FieldFits(cols[k], fields[k])
    requires RowValues(fields, cols).Ok?
    ensures forall k :: 0 <= k < |fields| - 1 ==> FieldFits(cols[k], fields[..|fields| - 1][k])
    ensures RowValues(fields[..|fields| - 1], cols).Ok? && FieldValue(cols[|fields| - 1], fields[|fields| - 1]).Ok?
    ensures RowValues(fields, cols).value
         == RowValues(fields[..|fields| - 1], cols).value + [FieldValue(cols[|fields| - 1], fields[|fields| - 1]).value]
  {
  }

  /** Once a prefix of the fields fails, the line fails with the same error. */
  lemma {:induction false} RowValuesStopAt(fields: seq<seq<byte>>, cols: seq<ColMeta>, i: nat)
    requires |fields| <= |cols| && forall k :: 0 <= k < |fields| ==> FieldFits(cols[k], fields[k])
    requires i <= |fields| && RowValues(fields[..i], cols).Err?
    ensures RowValues(fields, cols) == RowValues(fields[..i], cols)
    decreases |fields| - i
  {
    if i < |fields| {
      assert fields[..i + 1][..i] == fields[..i];
      RowValuesStopAt(fields, cols, i + 1);
    } else {
      assert fields[..i] == fields;
    }
  }

  /** What get_values gives: whether a line was read, its values, and the bytes read so far. */
  datatype Got = Got(more: bool, values: seq<Literal>, next: nat)

  /** Every field get_values reads after pos bytes fits its column. */
  predicate RowFits(file: seq<byte>, pos: nat, cols: seq<ColMeta>)
    requires pos <= |file|
  {
    LineFits(ReadRow(file, pos, |cols|), cols)
  }

  /** Every field of the line fits its column. */
  predicate LineFits(row: Row, cols: seq<ColMeta>)
  {
    |row.fields| <= |cols| && forall k :: 0 <= k < |row.fields| ==> FieldFits(cols[k], row.fields[k])
  }

  /**
   * get_values after pos bytes of the file: false at EOF; the values of
   * the line when it has one field per column; the first field's
   * conversion error, or InvalidValueCountError when the line is short.
   */
  function ReadValues(file: seq<byte>, pos: nat, cols: seq<ColMeta>): (r: Result<Got, DbError>)
    requires pos <= |file| && RowFits(file, pos, cols)
    ensures r.Ok? ==> pos <= r.value.next <= |file| && (r.value.more ==> pos < r.value.next)
    ensures r.Ok? && r.value.more ==> |r.value.values| == |cols| && AllInRange(r.value.values)
                                      && forall k :: 0 <= k < |cols| ==> r.value.values[k].litType == cols[k].colType
    ensures r.Err? ==> r.error == ResultOutOfRange || r.error == InvalidValueCount
  {
    var row := ReadRow(file, pos, |cols|);
    if row.fields == [] then Ok(Got(false, [], row.next))
    else
      var vs := RowValues(row.fields, cols);
      if vs.Err? then Err(vs.error)
      else if |vs.value| == |cols| then
        RowValuesAre(row.fields, cols);
        Ok(Got(true, vs.value, row.next))
      else Err(InvalidValueCount)
  }

  /**
   * A line of plain fields, one per column, each fitting and converting,
   * loads as their values; a line with fewer fields is refused with
   * InvalidValueCountError.
   */
  lemma LoadsLine(fields: seq<seq<byte>>, rest: seq<byte>, cols: seq<ColMeta>)
    requires 0 < |fields| <= |cols| && forall k :: 0 <= k < |fields| ==> Plain(fields[k])
    requires forall k :: 0 <= k < |fields| ==> FieldFits(cols[k], fields[k]) && FieldValue(cols[k], fields[k]).Ok?
    ensures RowFits(Line(fields) + rest, 0, cols)
    ensures |fields| == |cols| ==> ReadValues(Line(fields) + rest, 0, cols)
                                   == Ok(Got(true, RowValues(fields, cols).value, |Line(fields)|))
    ensures |fields| < |cols| ==> ReadValues(Line(fields) + rest, 0, cols) == Err(InvalidValueCount)
  {
    ReadsLine(fields, rest, |cols|);
  }

  /**
   * get_values: the fields of the next line read char by char (each into
   * values_buf_) and each set into its column's value as soon as it is
   * read.
   */
  method GetValues(rd: Reader, cols: seq<ColMeta>) returns (r: Result<bool, DbError>, vals: seq<Literal>)
    requires rd.Valid() && RowFits(rd.file, rd.Consumed(), cols)
    modifies rd`curIdx, rd`curPos, rd`remain, rd`filePos, rd`block, rd.buf0, rd.buf1
    ensures rd.Valid()
    ensures r.Ok? <==> ReadValues(rd.file, old(rd.Consumed()), cols).Ok?
    ensures r.Err? ==> r.error == ReadValues(rd.file, old(rd.Consumed()), cols).error
    ensures r.Ok? ==> ReadValues(rd.file, old(rd.Consumed()), cols).value == Got(r.value, vals, rd.Consumed())
  {
    ghost var pos := rd.Consumed();
    var ch := rd.GetChar();
    if ch == EOF || |cols| == 0 {
      return Ok(false), [];
    }
    r, vals := ReadColumns(rd, ch, cols, pos);
  }

  /** The loop of get_values: one column per turn, from the first char ch of the line at pos. */
  method ReadColumns(rd: Reader, ch0: int, cols: seq<ColMeta>, ghost pos: nat) returns (r: Result<bool, DbError>, vals: seq<Literal>)
    requires rd.Valid() && pos <= |rd.file| && RowFits(rd.file, pos, cols)
    requires ch0 == Stream(rd.file, pos) && rd.Consumed() == After(rd.file, pos) && ch0 != EOF && |cols| > 0
    modifies rd`curIdx, rd`curPos, rd`remain, rd`filePos, rd`block, rd.buf0, rd.buf1
    ensures rd.Valid()
    ensures r.Ok? <==> ReadValues(rd.file, pos, cols).Ok?
    ensures r.Err? ==> r.error == ReadValues(rd.file, pos, cols).error
    ensures r.Ok? ==> ReadValues(rd.file, pos, cols).value == Got(r.value, vals, rd.Consumed())
  {
    ghost var file := rd.file;
    ghost var row := ReadRow(file, pos, |cols|);
    ghost var i: nat := pos;
    ghost var got: seq<seq<byte>> := [];
    var ch := ch0;
    var col: nat := 0;
    vals := [];
    assert got + Fields(file, i, col, |cols|).fields == row.fields;
    while true
      invariant rd.Valid() && rd.file == file
      invariant col == |got| == |vals| && AtField(file, pos, cols, row, got, vals, i)
      invariant ch == Stream(file, i) && rd.Consumed() == After(file, i)
      decreases |cols| - col
    {
      var v, more;
      ch, v, vals, more, i, got := ReadColumn(rd, ch, i, cols, col, file, pos, row, got, vals);
      if v.Err? {
        return Err(v.error), vals;
      }
      col := col + 1;
      if !more {
        return if col == |cols| then Ok(true) else Err(InvalidValueCount), vals;
      }
    }
  }

  /**
   * One turn of get_values's loop: the field read up to its end and set
   * into its column's value; then, after a ',', the next char, and whether
   * the line goes on.
   */
  method ReadColumn(rd: Reader, ch0: int, ghost i: nat, cols: seq<ColMeta>, col: nat, ghost file: seq<byte>,
                    ghost pos: nat, ghost row: Row, ghost got: seq<seq<byte>>, vals: seq<Literal>)
    returns (ch: int, v: Result<Literal, DbError>, vals': seq<Literal>, more: bool, ghost i': nat, ghost got': seq<seq<byte>>)
    requires rd.Valid() && rd.file == file && ch0 == Stream(file, i) && rd.Consumed() == After(file, i)
    requires col == |got| && AtField(file, pos, cols, row, got, vals, i)
    modifies rd`curIdx, rd`curPos, rd`remain, rd`filePos, rd`block, rd.buf0, rd.buf1
    ensures rd.Valid()
    ensures v.Err? ==> ReadValues(file, pos, cols) == Err(v.error)
    ensures v.Ok? ==> vals' == vals + [v.value]
    ensures v.Ok? && !more ==> Ended(file, pos, cols, vals', rd.Consumed())
    ensures v.Ok? && more ==> col + 1 == |got'| && AtField(file, pos, cols, row, got', vals', i')
                              && ch == Stream(file, i') && rd.Consumed() == After(file, i')
  {
    FieldAt(file, pos, cols, row, got, vals, i);
    ghost var e := FieldEnd(file, i);
    var f, comma;
    f, ch := ReadField(rd, ch0, i);
    v, ch, comma := LoadThenSkip(rd, f, ch, e, cols[col]);
    ColumnStep(file, pos, cols, row, got, vals, i, e, v, comma, ch, rd.Consumed());
    if v.Err? {
      return ch, v, vals, false, i, got;
    }
    vals' := vals + [v.value];
    got' := got + [file[i..e]];
    i' := e + 1;
    more := comma && ch != EOF && col + 1 < |cols|;
  }

  /**
   * One turn of get_values's loop, from what was read: a field that does
   * not convert fails the line; one that converts ends the line, or is
   * followed by a ',' and more of the line.
   */
  lemma ColumnStep(file: seq<byte>, pos: nat, cols: seq<ColMeta>, row: Row, got: seq<seq<byte>>, vals: seq<Literal>, i: nat,
                   e: nat, v: Result<Literal, DbError>, comma: bool, ch: int, next: nat)
    requires AtField(file, pos, cols, row, got, vals, i) && e == FieldEnd(file, i)
    requires |got| < |cols| && i <= FieldEnd(file, i) && FieldFits(cols[|got|], file[i..FieldEnd(file, i)])
    requires v == FieldValue(cols[|got|], file[i..FieldEnd(file, i)])
    requires && (v.Ok? ==> (comma <==> Stream(file, e) == COMMA))
      && (v.Ok? && Stream(file, e) != COMMA ==> next == After(file, e))
      && (v.Ok? && Stream(file, e) == COMMA ==> e < |file| && ch == Stream(file, e + 1) && next == After(file, e + 1))
    ensures v.Err? ==> ReadValues(file, pos, cols) == Err(v.error)
    ensures v.Ok? && !(comma && ch != EOF && |got| + 1 < |cols|) ==> Ended(file, pos, cols, vals + [v.value], next)
    ensures v.Ok? && comma && ch != EOF && |got| + 1 < |cols| ==>
      && AtField(file, pos, cols, row, got + [file[i..e]], vals + [v.value], e + 1)
      && ch == Stream(file, e + 1) && next == After(file, e + 1)
  {
    if v.Err? {
      AtFieldFails(file, pos, cols, row, got, vals, i);
    } else if comma && ch != EOF && |got| + 1 < |cols| {
      AtFieldNext(file, pos, cols, row, got, vals, i, e, v.value, got + [file[i..e]], vals + [v.value]);
    } else {
      AtFieldEnds(file, pos, cols, row, got, vals, i, e, v.value, vals + [v.value], next);
    }
  }

  /** Where get_values stands: the first |got| fields of the line read into got and converted into vals; the rest start at i. */
  ghost predicate AtField(file: seq<byte>, pos: nat, cols: seq<ColMeta>, row: Row, got: seq<seq<byte>>, vals: seq<Literal>, i: nat)
  {
    && pos <= |file| && RowFits(file, pos, cols) && row == ReadRow(file, pos, |cols|)
    && LineFits(row, cols) && Reading(row, cols, got, vals) && Continues(file, row, got, i, |got|, |cols|)
  }

  /** The line has ended with vals read and next bytes consumed: get_values gives them, or refuses a short line. */
  ghost predicate Ended(file: seq<byte>, pos: nat, cols: seq<ColMeta>, vals: seq<Literal>, next: nat)
    requires pos <= |file| && RowFits(file, pos, cols)
  {
    ReadValues(file, pos, cols) == if |vals| == |cols| then Ok(Got(true, vals, next)) else Err(InvalidValueCount)
  }

  /** The field at i is the next field of the line, and fits its column. */
  lemma FieldAt(file: seq<byte>, pos: nat, cols: seq<ColMeta>, row: Row, got: seq<seq<byte>>, vals: seq<Literal>, i: nat)
    requires AtField(file, pos, cols, row, got, vals, i)
    ensures |got| < |cols| && i <= FieldEnd(file, i) && FieldFits(cols[|got|], file[i..FieldEnd(file, i)])
  {
    ContinuesStep(file, row, got, i, |got|, |cols|, FieldEnd(file, i));
  }

  /** A field that does not convert: get_values fails as the whole line does. */
  lemma AtFieldFails(file: seq<byte>, pos: nat, cols: seq<ColMeta>, row: Row, got: seq<seq<byte>>, vals: seq<Literal>, i: nat)
    requires AtField(file, pos, cols, row, got, vals, i)
    requires |got| < |cols| && FieldFits(cols[|got|], file[i..FieldEnd(file, i)])
    requires FieldValue(cols[|got|], file[i..FieldEnd(file, i)]).Err?
    ensures ReadValues(file, pos, cols) == Err(FieldValue(cols[|got|], file[i..FieldEnd(file, i)]).error)
  {
    ContinuesStep(file, row, got, i, |got|, |cols|, FieldEnd(file, i));
    ReadingFails(file, pos, row, cols, got, vals, file[i..FieldEnd(file, i)]);
  }

  /** A field that converts and ends the line: get_values gives the values read, or refuses a short line. */
  lemma AtFieldEnds(file: seq<byte>, pos: nat, cols: seq<ColMeta>, row: Row, got: seq<seq<byte>>, vals: seq<Literal>, i: nat,
                    e: nat, v: Literal, vals': seq<Literal>, next: nat)
    requires AtField(file, pos, cols, row, got, vals, i) && e == FieldEnd(file, i)
    requires |got| < |cols| && FieldFits(cols[|got|], file[i..FieldEnd(file, i)])
    requires FieldValue(cols[|got|], file[i..FieldEnd(file, i)]) == Ok(v) && vals' == vals + [v]
    requires
      || (Stream(file, e) != COMMA && next == After(file, e))
      || (Stream(file, e) == COMMA && (Stream(file, e + 1) == EOF || |got| + 1 == |cols|) && next == After(file, e + 1))
    ensures Ended(file, pos, cols, vals', next)
  {
    var f := file[i..e];
    ContinuesStep(file, row, got, i, |got|, |cols|, e);
    ReadingGrows(row, cols, got, vals, f, v);
    if Stream(file, e) != COMMA {
      assert row == Row(got + [f], next);
    } else {
      assert row == Row(got + [f], next);
    }
    ReadingEnds(file, pos, row, cols, got + [f], vals');
  }

  /** A field that converts, followed by a ',' and more of the line: get_values goes on to the next field. */
  lemma AtFieldNext(file: seq<byte>, pos: nat, cols: seq<ColMeta>, row: Row, got: seq<seq<byte>>, vals: seq<Literal>, i: nat,
                    e: nat, v: Literal, got': seq<seq<byte>>, vals': seq<Literal>)
    requires AtField(file, pos, cols, row, got, vals, i) && e == FieldEnd(file, i)
    requires |got| < |cols| && FieldFits(cols[|got|], file[i..e]) && FieldValue(cols[|got|], file[i..e]) == Ok(v)
    requires got' == got + [file[i..e]] && vals' == vals + [v]
    requires Stream(file, e) == COMMA && Stream(file, e + 1) != EOF && |got| + 1 < |cols|
    ensures AtField(file, pos, cols, row, got', vals', e + 1)
  {
    ContinuesStep(file, row, got, i, |got|, |cols|, e);
    ReadingGrows(row, cols, got, vals, file[i..e], v);
    assert Reading(row, cols, got', vals');
    assert Continues(file, row, got', e + 1, |got'|, |cols|);
  }

  /** What is left of the line after got: the fields from column col on, starting at i. */
  ghost predicate Continues(file: seq<byte>, row: Row, got: seq<seq<byte>>, i: nat, col: nat, colNum: nat)
  {
    i <= |file| && Stream(file, i) != EOF && col < colNum
    && row == Row(got + Fields(file, i, col, colNum).fields, Fields(file, i, col, colNum).next)
  }

  /** The first col fields of the line have been read into got and converted into vals. */
  ghost predicate Reading(row: Row, cols: seq<ColMeta>, got: seq<seq<byte>>, vals: seq<Literal>)
    requires LineFits(row, cols)
  {
    && |got| == |vals| <= |row.fields| && got == row.fields[..|got|]
    && (assert forall k :: 0 <= k < |got| ==> got[k] == row.fields[k];
        RowValues(got, cols) == Ok(vals))
  }

  /** One more field of the line: where it ends, and what is left after it. */
  lemma ContinuesStep(file: seq<byte>, row: Row, got: seq<seq<byte>>, i: nat, col: nat, colNum: nat, e: nat)
    requires Continues(file, row, got, i, col, colNum) && |got| == col && e == FieldEnd(file, i)
    ensures && col < |row.fields| && row.fields[col] == file[i..e] && row.fields[..col + 1] == got + [file[i..e]]
      && (Stream(file, e) != COMMA ==> row == Row(got + [file[i..e]], After(file, e)))
      && (Stream(file, e) == COMMA && (Stream(file, e + 1) == EOF || col + 1 == colNum) ==>
            row == Row(got + [file[i..e]], After(file, e + 1)))
      && (Stream(file, e) == COMMA && Stream(file, e + 1) != EOF && col + 1 < colNum ==>
            Continues(file, row, got + [file[i..e]], e + 1, col + 1, colNum))
  {
    var f := file[i..e];
    var fs := Fields(file, i, col, colNum);
    if Stream(file, e) != COMMA {
      assert fs == Row([f], After(file, e));
    } else if Stream(file, e + 1) == EOF || col + 1 == colNum {
      assert fs == Row([f], After(file, e + 1));
    } else {
      var rest := Fields(file, e + 1, col + 1, colNum);
      assert fs == Row([f] + rest.fields, rest.next);
      assert got + fs.fields == (got + [f]) + rest.fields;
    }
    assert fs.fields[0] == f;
    assert (got + fs.fields)[..col + 1] == got + [f];
  }

  /** A field that converts is appended to the values read. */
  lemma ReadingGrows(row: Row, cols: seq<ColMeta>, got: seq<seq<byte>>, vals: seq<Literal>, f: seq<byte>, v: Literal)
    requires LineFits(row, cols) && Reading(row, cols, got, vals)
    requires |got| < |row.fields| && |got| < |cols| && got + [f] == row.fields[..|got| + 1]
    requires FieldFits(cols[|got|], f) && FieldValue(cols[|got|], f) == Ok(v)
    ensures Reading(row, cols, got + [f], vals + [v])
  {
    forall k | 0 <= k < |got| ensures FieldFits(cols[k], got[k]) {
      assert got[k] == row.fields[k];
    }
    RowValuesSnoc(got, cols, vals, f, v);
  }

  /** The values of one more field: those of the fields before it, and its own. */
  lemma RowValuesSnoc(got: seq<seq<byte>>, cols: seq<ColMeta>, vals: seq<Literal>, f: seq<byte>, v: Literal)
    requires |got| < |cols| && forall k :: 0 <= k < |got| ==> FieldFits(cols[k], got[k])
    requires RowValues(got, cols) == Ok(vals) && FieldFits(cols[|got|], f) && FieldValue(cols[|got|], f) == Ok(v)
    ensures forall k :: 0 <= k < |got| + 1 ==> FieldFits(cols[k], (got + [f])[k])
    ensures RowValues(got + [f], cols) == Ok(vals + [v])
  {
    var g := got + [f];
    FitsSnoc(got, cols, f);
    assert g[..|got|] == got;
  }

  /** One more field that fits its column. */
  lemma FitsSnoc(got: seq<seq<byte>>, cols: seq<ColMeta>, f: seq<byte>)
    requires |got| < |cols| && forall k :: 0 <= k < |got| ==> FieldFits(cols[k], got[k])
    requires FieldFits(cols[|got|], f)
    ensures forall k :: 0 <= k < |got| + 1 ==> FieldFits(cols[k], (got + [f])[k])
  {
    var g := got + [f];
    forall k | 0 <= k < |g|
      ensures FieldFits(cols[k], g[k])
    {
      if k < |got| {
        assert g[k] == got[k];
      }
    }
  }

  /** The line has ended after got: get_values gives its values, or refuses a short line. */
  lemma ReadingEnds(file: seq<byte>, pos: nat, row: Row, cols: seq<ColMeta>, got: seq<seq<byte>>, vals: seq<Literal>)
    requires pos <= |file| && RowFits(file, pos, cols) && row == ReadRow(file, pos, |cols|)
    requires Reading(row, cols, got, vals) && row.fields == got && got != []
    ensures Ended(file, pos, cols, vals, row.next)
  {
    assert row.fields[..|got|] == row.fields;
  }

  /** A field that does not convert: get_values fails as the whole line does. */
  lemma ReadingFails(file: seq<byte>, pos: nat, row: Row, cols: seq<ColMeta>, got: seq<seq<byte>>, vals: seq<Literal>, f: seq<byte>)
    requires pos <= |file| && RowFits(file, pos, cols) && row == ReadRow(file, pos, |cols|)
    requires Reading(row, cols, got, vals) && |got| < |row.fields|
    requires row.fields[..|got| + 1] == got + [f] && |got| < |cols| && FieldFits(cols[|got|], f)
    requires FieldValue(cols[|got|], f).Err?
    ensures ReadValues(file, pos, cols) == Err(FieldValue(cols[|got|], f).error)
  {
    var g := got + [f];
    assert g[..|got|] == got;
    assert RowValues(g, cols) == Err(FieldValue(cols[|got|], f).error);
    RowValuesStopAt(row.fields, cols, |got| + 1);
  }
}
