// The update executor (executor_update.h): for every rid the scan found,
// in order, the record's key is taken out of every index and the SET
// clauses are applied to a copy of the record (each clause's value
// converted in place to its column's type first); then the new keys are
// checked for a conflict, and either the old keys go back and "failure" is
// written, or the new keys go in, an UPDATE_TUPLE write record with the
// old image is appended per rid and the records are overwritten. The
// executor takes no lock (its lock calls are commented out in the source).
module UpdateExec {
  import opened Wrappers
  import opened Errors
  import opened Values
  import opened Catalog
  import opened ExecManager
  import opened IxNode
  import opened Txn
  import opened Logging
  import opened Tables
  import opened IndexWrites

  /** lhs = rhs, or lhs = rhsCol + rhs when rhsCol is not empty. */
  datatype SetClause = SetClause(lhs: string, rhs: Literal, rhsCol: string)

  /** The number *(int *)(tuple + off) reads. */
  function IntAt(tuple: seq<byte>, off: nat): int
  {
    var f := Field(tuple, ColSpan(off, 4));
    assert |f| == 4;
    ReadInt32(f)
  }

  /** The number *(long long *)(tuple + off) reads. */
  function BigintAt(tuple: seq<byte>, off: nat): int
  {
    var f := Field(tuple, ColSpan(off, 8));
    assert |f| == 8;
    ReadInt64(f)
  }

  /**
   * A column plus a number stored into an INT or BIGINT lhs column: the
   * rhs column's bytes read as the lhs type's number, the sum wrapped to
   * the type's width; any other lhs type is unsupported.
   */
  function AddTo(tuple: seq<byte>, lc: ColMeta, rc: ColMeta, n: int): (r: Result<seq<byte>, DbError>)
    requires Fits(lc, tuple)
    ensures r.Ok? <==> lc.colType == TypeInt || lc.colType == TypeBigint
    ensures r.Err? ==> r.error == UnsupportedType
    ensures r.Ok? ==> |r.value| == |tuple|
  {
    if lc.colType == TypeInt then Ok(Place(tuple, lc, Int32Bytes(Wrap32(IntAt(tuple, rc.offset) + n))))
    else if lc.colType == TypeBigint then Ok(Place(tuple, lc, Int64Bytes(Wrap64(BigintAt(tuple, rc.offset) + n))))
    else Err(UnsupportedType)
  }

  /** The lhs column written with the converted value v: copied, or added to the rhs column. */
  function Write(tuple: seq<byte>, lc: ColMeta, v: Literal, rhsCol: string, cols: seq<ColMeta>): (r: Result<seq<byte>, DbError>)
    requires Fits(lc, tuple)
    ensures r.Ok? ==> |r.value| == |tuple|
  {
    if rhsCol == "" then Ok(Place(tuple, lc, v.raw))
    else
      match FindCol(cols, rhsCol)
      case Err(e) => Err(e)
      case Ok(rc) => AddTo(tuple, lc, rc, v.num)
  }

  /**
   * One SET clause applied to the tuple: the lhs column looked up, the
   * value converted to its type, the column written. Also gives the
   * converted value, which the clause keeps.
   */
  function SetStep(tuple: seq<byte>, s: SetClause, cols: seq<ColMeta>): (r: Result<(seq<byte>, Literal), DbError>)
    requires NoFloat(cols) && Laid(cols, tuple)
    ensures r.Ok? ==> |r.value.0| == |tuple|
  {
    match FindCol(cols, s.lhs)
    case Err(e) => Err(e)
    case Ok(lc) =>
      match Converted(s.rhs, lc.colType, lc.len)
      case Err(e) => Err(e)
      case Ok(v) =>
        match Write(tuple, lc, v, s.rhsCol, cols)
        case Err(e) => Err(e)
        case Ok(t) => Ok((t, v))
  }

  /** The SET clauses applied in order; also gives the clauses with their values converted. */
  function SetRow(tuple: seq<byte>, sets: seq<SetClause>, cols: seq<ColMeta>): (r: Result<(seq<byte>, seq<SetClause>), DbError>)
    requires NoFloat(cols) && Laid(cols, tuple)
    ensures r.Ok? ==> |r.value.0| == |tuple| && |r.value.1| == |sets|
    decreases |sets|
  {
    if sets == [] then Ok((tuple, []))
    else
      var n := |sets| - 1;
      match SetRow(tuple, sets[..n], cols)
      case Err(e) => Err(e)
      case Ok(p) =>
        assert Laid(cols, p.0);
        match SetStep(p.0, sets[n], cols)
        case Err(e) => Err(e)
        case Ok(q) => Ok((q.0, p.1 + [sets[n].(rhs := q.1)]))
  }

  /** A clause that fails stops the row: the whole list fails as its prefix did. */
  lemma {:induction false} SetRowStopsAt(t: seq<byte>, sets: seq<SetClause>, cols: seq<ColMeta>, i: nat)
    requires NoFloat(cols) && Laid(cols, t) && i <= |sets| && SetRow(t, sets[..i], cols).Err?
    ensures SetRow(t, sets, cols) == SetRow(t, sets[..i], cols)
    decreases |sets|
  {
    if i < |sets| {
      var n := |sets| - 1;
      assert sets[..n][..i] == sets[..i];
      SetRowStopsAt(t, sets[..n], cols, i);
    } else {
      assert sets[..i] == sets;
    }
  }

  /** One more clause: the fold so far, then that clause's step. */
  lemma SetRowNext(tuple: seq<byte>, sets: seq<SetClause>, cols: seq<ColMeta>, i: nat, t: seq<byte>, done: seq<SetClause>,
                   step: Result<(seq<byte>, Literal), DbError>)
    requires NoFloat(cols) && Laid(cols, tuple) && Laid(cols, t) && i < |sets| && SetRow(tuple, sets[..i], cols) == Ok((t, done))
    requires step == SetStep(t, sets[i], cols)
    ensures step.Err? ==> SetRow(tuple, sets[..i + 1], cols) == Err(step.error)
    ensures step.Ok? ==> SetRow(tuple, sets[..i + 1], cols) == Ok((step.value.0, done + [sets[i].(rhs := step.value.1)]))
  {
    assert sets[..i + 1][..i] == sets[..i];
  }

  /**
   * A clause that went through on one tuple goes through on any, and
   * applying it again with its converted value does what the original
   * does: whether a clause fails never depends on the row.
   */
  lemma SetStepStable(t: seq<byte>, t': seq<byte>, s: SetClause, cols: seq<ColMeta>)
    requires NoFloat(cols) && Laid(cols, t) && Laid(cols, t') && SetStep(t, s, cols).Ok?
    ensures SetStep(t', s, cols).Ok?
    ensures SetStep(t', s.(rhs := SetStep(t, s, cols).value.1), cols) == SetStep(t', s, cols)
    ensures SetStep(t', s, cols).value.1 == SetStep(t, s, cols).value.1
  {
    var lc := FindCol(cols, s.lhs).value;
    ConvertedIdempotent(s.rhs, lc.colType, lc.len);
  }

  /**
   * The same for a list of clauses: once the first updated row has gone
   * through, every later row goes through, and the clauses converted in
   * place by the first row act on it exactly as the original ones would.
   */
  lemma {:induction false} SetRowStable(t: seq<byte>, t': seq<byte>, sets: seq<SetClause>, cols: seq<ColMeta>)
    requires NoFloat(cols) && Laid(cols, t) && Laid(cols, t') && SetRow(t, sets, cols).Ok?
    ensures SetRow(t', sets, cols).Ok?
    ensures SetRow(t', SetRow(t, sets, cols).value.1, cols) == SetRow(t', sets, cols)
    ensures SetRow(t', sets, cols).value.1 == SetRow(t, sets, cols).value.1
    decreases |sets|
  {
    if sets != [] {
      var n := |sets| - 1;
      var conv := SetRow(t, sets, cols).value.1;
      var p := SetRow(t, sets[..n], cols).value;
      SetRowStable(t, t', sets[..n], cols);
      var p' := SetRow(t', sets[..n], cols).value;
      assert conv[..n] == p.1 && conv[n] == sets[n].(rhs := SetStep(p.0, sets[n], cols).value.1);
      assert Laid(cols, p.0) && Laid(cols, p'.0);
      SetStepStable(p.0, p'.0, sets[n], cols);
    }
  }

  /** The column a shorter source was copied into starts with the source. */
  lemma PlacedHead(tuple: seq<byte>, c: ColMeta, src: seq<byte>)
    requires Fits(c, tuple) && |src| <= c.len
    ensures FieldOf(c, Place(tuple, c, src))[..|src|] == src
  {
    assert Padded(src, c.len)[..|src|] == src;
  }

  /** The INT bytes of v written into a column read back as v wrapped to int. */
  lemma PlacedInt32(tuple: seq<byte>, c: ColMeta, v: int)
    requires Fits(c, tuple) && c.len >= 4
    ensures ReadInt32(FieldOf(c, Place(tuple, c, Int32Bytes(v)))) == Wrap32(v)
  {
    PlacedHead(tuple, c, Int32Bytes(v));
    ReadInt32Head(FieldOf(c, Place(tuple, c, Int32Bytes(v))), v);
  }

  /** The BIGINT bytes of v written into a column read back as v wrapped to long long. */
  lemma PlacedInt64(tuple: seq<byte>, c: ColMeta, v: int)
    requires Fits(c, tuple) && c.len >= 8
    ensures ReadInt64(FieldOf(c, Place(tuple, c, Int64Bytes(v)))) == Wrap64(v)
  {
    PlacedHead(tuple, c, Int64Bytes(v));
    ReadInt64Head(FieldOf(c, Place(tuple, c, Int64Bytes(v))), v);
  }

  /** An INT column set to a column plus a number holds the sum wrapped to int; the rest of the tuple stays. */
  lemma AddsInt(tuple: seq<byte>, lc: ColMeta, rc: ColMeta, n: int)
    requires Fits(lc, tuple) && lc.colType == TypeInt
    ensures ReadInt32(FieldOf(lc, AddTo(tuple, lc, rc, n).value)) == Wrap32(IntAt(tuple, rc.offset) + n)
    ensures forall i :: 0 <= i < |tuple| && !(lc.offset <= i < lc.offset + lc.len) ==> AddTo(tuple, lc, rc, n).value[i] == tuple[i]
  {
    PlacedInt32(tuple, lc, Wrap32(IntAt(tuple, rc.offset) + n));
  }

  /** A BIGINT column set to a column plus a number holds the sum wrapped to long long; the rest stays. */
  lemma AddsBigint(tuple: seq<byte>, lc: ColMeta, rc: ColMeta, n: int)
    requires Fits(lc, tuple) && lc.colType == TypeBigint
    ensures ReadInt64(FieldOf(lc, AddTo(tuple, lc, rc, n).value)) == Wrap64(BigintAt(tuple, rc.offset) + n)
    ensures forall i :: 0 <= i < |tuple| && !(lc.offset <= i < lc.offset + lc.len) ==> AddTo(tuple, lc, rc, n).value[i] == tuple[i]
  {
    PlacedInt64(tuple, lc, Wrap64(BigintAt(tuple, rc.offset) + n));
  }

  /**
   * A clause with a value only leaves the lhs column holding the converted
   * value's bytes (a string padded to the column with zeros), and every
   * other byte of the tuple as it was.
   */
  lemma SetCopies(tuple: seq<byte>, s: SetClause, cols: seq<ColMeta>)
    requires NoFloat(cols) && Laid(cols, tuple) && SetStep(tuple, s, cols).Ok? && s.rhsCol == ""
    ensures var lc := FindCol(cols, s.lhs).value;
      var v := Converted(s.rhs, lc.colType, lc.len).value;
      var t := SetStep(tuple, s, cols).value.0;
      && Fits(lc, t) && FieldOf(lc, t) == Padded(v.raw, lc.len)
      && (lc.colType == TypeString ==> FieldOf(lc, t) == v.raw)
      && forall i :: 0 <= i < |tuple| && !(lc.offset <= i < lc.offset + lc.len) ==> t[i] == tuple[i]
  {
  }

  // ---------------------------------------------------------------------
  // The batch.

  /** The records of the rids, as get_record reads them before any change. */
  function Olds(t: Table, rids: seq<Rid>): (olds: seq<seq<byte>>)
    requires forall j :: 0 <= j < |rids| ==> rids[j] in t.records
    ensures |olds| == |rids| && forall j :: 0 <= j < |rids| ==> olds[j] == t.records[rids[j]]
  {
    seq(|rids|, j requires 0 <= j < |rids| => t.records[rids[j]])
  }

  /** What the executor may be given: distinct existing rids whose records hold every column. */
  predicate Prepared(db: Db, name: string, cols: seq<ColMeta>, sets: seq<SetClause>, rids: seq<Rid>)
  {
    && name in db && NoFloat(cols) && Distinct(rids)
    && (forall j :: 0 <= j < |sets| ==> InRange(sets[j].rhs))
    && (forall j :: 0 <= j < |rids| ==> rids[j] in db[name].records && Laid(cols, db[name].records[rids[j]]))
  }

  /** Every row's SET clauses go through. */
  predicate AllSet(olds: seq<seq<byte>>, sets: seq<SetClause>, cols: seq<ColMeta>)
    requires NoFloat(cols) && forall j :: 0 <= j < |olds| ==> Laid(cols, olds[j])
  {
    forall j :: 0 <= j < |olds| ==> SetRow(olds[j], sets, cols).Ok?
  }

  /** news holds the first j rows' new tuples, every one of them set without error. */
  ghost predicate SetSoFar(olds: seq<seq<byte>>, sets: seq<SetClause>, cols: seq<ColMeta>, news: seq<seq<byte>>, j: nat)
    requires NoFloat(cols) && (forall m :: 0 <= m < |olds| ==> Laid(cols, olds[m])) && j <= |olds|
  {
    |news| == j && forall m :: 0 <= m < j ==> SetRow(olds[m], sets, cols).Ok? && news[m] == SetRow(olds[m], sets, cols).value.0
  }

  lemma SetSoFarStep(olds: seq<seq<byte>>, sets: seq<SetClause>, cols: seq<ColMeta>, news: seq<seq<byte>>, j: nat,
                     row: Result<(seq<byte>, seq<SetClause>), DbError>)
    requires NoFloat(cols) && (forall m :: 0 <= m < |olds| ==> Laid(cols, olds[m])) && j < |olds|
    requires SetSoFar(olds, sets, cols, news, j) && row == SetRow(olds[j], sets, cols) && row.Ok?
    ensures SetSoFar(olds, sets, cols, news + [row.value.0], j + 1)
  {
    var next := news + [row.value.0];
    forall m | 0 <= m < j + 1
      ensures SetRow(olds[m], sets, cols).Ok? && next[m] == SetRow(olds[m], sets, cols).value.0
    {
      if m < j {
        assert next[m] == news[m];
      }
    }
  }

  /** The new tuples. */
  function Updated(olds: seq<seq<byte>>, sets: seq<SetClause>, cols: seq<ColMeta>): (news: seq<seq<byte>>)
    requires NoFloat(cols) && (forall j :: 0 <= j < |olds| ==> Laid(cols, olds[j])) && AllSet(olds, sets, cols)
    ensures |news| == |olds| && forall j :: 0 <= j < |olds| ==> news[j] == SetRow(olds[j], sets, cols).value.0
  {
    seq(|olds|, j requires 0 <= j < |olds| => SetRow(olds[j], sets, cols).value.0)
  }

  /** Each rec's key deleted from ix, first to last. */
  function DropRows(ix: Index, recs: seq<seq<byte>>): (r: Index)
    ensures r.cols == ix.cols
    decreases |recs|
  {
    if recs == [] then ix else DropKey(DropRows(ix, recs[..|recs| - 1]), recs[|recs| - 1])
  }

  /** Each rec's key inserted into ix with its rid, first to last. */
  function PutRows(ix: Index, recs: seq<seq<byte>>, rids: seq<Rid>): (r: Index)
    requires |recs| == |rids|
    ensures r.cols == ix.cols
    decreases |recs|
  {
    if recs == [] then ix
    else
      var n := |recs| - 1;
      PutKey(PutRows(ix, recs[..n], rids[..n]), recs[n], rids[n])
  }

  function DropAll(ixs: seq<Index>, recs: seq<seq<byte>>): (r: seq<Index>)
    ensures |r| == |ixs| && forall i :: 0 <= i < |ixs| ==> r[i] == DropRows(ixs[i], recs)
  {
    seq(|ixs|, i requires 0 <= i < |ixs| => DropRows(ixs[i], recs))
  }

  function PutAll(ixs: seq<Index>, recs: seq<seq<byte>>, rids: seq<Rid>): (r: seq<Index>)
    requires |recs| == |rids|
    ensures |r| == |ixs| && forall i :: 0 <= i < |ixs| ==> r[i] == PutRows(ixs[i], recs, rids)
  {
    seq(|ixs|, i requires 0 <= i < |ixs| => PutRows(ixs[i], recs, rids))
  }

  /** update_record of each rid with its new tuple, first to last. */
  function Overwrite(records: map<Rid, seq<byte>>, rids: seq<Rid>, news: seq<seq<byte>>): map<Rid, seq<byte>>
    requires |rids| == |news|
    decreases |rids|
  {
    if rids == [] then records
    else
      var n := |rids| - 1;
      Overwrite(records, rids[..n], news[..n])[rids[n] := news[n]]
  }

  /** The UPDATE_TUPLE write records, each with its rid's old image. */
  function UpdateWrites(name: string, rids: seq<Rid>, olds: seq<seq<byte>>): (ws: seq<WriteRecord>)
    requires |rids| == |olds|
    ensures |ws| == |rids| && forall k :: 0 <= k < |rids| ==> ws[k] == WriteRecord(UpdateTuple, name, rids[k], olds[k])
  {
    seq(|rids|, k requires 0 <= k < |rids| => WriteRecord(UpdateTuple, name, rids[k], olds[k]))
  }

  /** A new key that another updated row also gets, or that the index (without the old keys) still holds. */
  predicate Clash(ix: Index, news: seq<seq<byte>>)
  {
    exists j :: 0 <= j < |news| && ClashAt(ix, news, j)
  }

  /** Row j's new key is already in the index or is also a later row's new key. */
  predicate ClashAt(ix: Index, news: seq<seq<byte>>, j: nat)
    requires j < |news|
  {
    Key(news[j], ix.cols) in ix.entries || exists k :: j < k < |news| && Key(news[j], ix.cols) == Key(news[k], ix.cols)
  }

  predicate Conflict(ixs: seq<Index>, news: seq<seq<byte>>)
  {
    exists i :: 0 <= i < |ixs| && Clash(ixs[i], news)
  }

  /**
   * How the executor leaves the tables once every row's SET clauses went
   * through: with the old keys out of the indexes, a conflict puts them
   * back and changes nothing else; otherwise the new keys go in, the
   * records are overwritten and one write record per rid, with its old
   * image, is appended.
   */
  ghost predicate Outcome(db: Db, db': Db, name: string, cols: seq<ColMeta>, sets: seq<SetClause>, rids: seq<Rid>,
                          ws0: seq<WriteRecord>, ws: seq<WriteRecord>, ok: bool)
    requires Prepared(db, name, cols, sets, rids)
  {
    var t := db[name];
    var olds := Olds(t, rids);
    && AllSet(olds, sets, cols)
    && var news := Updated(olds, sets, cols);
       var cleared := DropAll(t.indexes, olds);
       && ok == !Conflict(cleared, news)
       && (ok ==> db' == db[name := Table(Overwrite(t.records, rids, news), PutAll(cleared, news, rids))]
                  && ws == ws0 + UpdateWrites(name, rids, olds))
       && (!ok ==> db' == db[name := Table(t.records, PutAll(cleared, olds, rids))] && ws == ws0)
  }

  // ---------------------------------------------------------------------
  // What the batch does to an index.

  /** Some record among recs has key k. */
  predicate KeyAmong(k: seq<byte>, recs: seq<seq<byte>>, cols: seq<ColSpan>)
  {
    exists j :: 0 <= j < |recs| && Key(recs[j], cols) == k
  }

  lemma KeyAmongPrefix(k: seq<byte>, recs: seq<seq<byte>>, cols: seq<ColSpan>)
    requires recs != []
    ensures KeyAmong(k, recs, cols) <==> KeyAmong(k, recs[..|recs| - 1], cols) || Key(recs[|recs| - 1], cols) == k
  {
    var n := |recs| - 1;
    if KeyAmong(k, recs[..n], cols) {
      var j :| 0 <= j < n && Key(recs[..n][j], cols) == k;
      assert recs[..n][j] == recs[j];
    }
    if KeyAmong(k, recs, cols) && Key(recs[n], cols) != k {
      var j :| 0 <= j < |recs| && Key(recs[j], cols) == k;
      assert j < n && recs[..n][j] == recs[j];
    }
  }

  /** Dropping the keys of recs: an entry stays, unchanged, exactly when its key is none of theirs. */
  lemma {:induction false} DropRowsAt(ix: Index, recs: seq<seq<byte>>, k: seq<byte>)
    ensures k in DropRows(ix, recs).entries <==> k in ix.entries && !KeyAmong(k, recs, ix.cols)
    ensures k in DropRows(ix, recs).entries ==> DropRows(ix, recs).entries[k] == ix.entries[k]
    decreases |recs|
  {
    if recs != [] {
      DropRowsAt(ix, recs[..|recs| - 1], k);
      KeyAmongPrefix(k, recs, ix.cols);
    }
  }

  /** Putting the keys of recs: the entries are the old ones and theirs; an old key none of them has keeps its rid. */
  lemma {:induction false} PutRowsAt(ix: Index, recs: seq<seq<byte>>, rids: seq<Rid>, k: seq<byte>)
    requires |recs| == |rids|
    ensures k in PutRows(ix, recs, rids).entries <==> k in ix.entries || KeyAmong(k, recs, ix.cols)
    ensures k in PutRows(ix, recs, rids).entries && !KeyAmong(k, recs, ix.cols) ==> PutRows(ix, recs, rids).entries[k] == ix.entries[k]
    decreases |recs|
  {
    if recs != [] {
      var n := |recs| - 1;
      PutRowsAt(ix, recs[..n], rids[..n], k);
      KeyAmongPrefix(k, recs, ix.cols);
    }
  }

  /** A record's key, unless a later record has it too, points at that record's rid. */
  lemma {:induction false} PutRowsLast(ix: Index, recs: seq<seq<byte>>, rids: seq<Rid>, j: nat)
    requires |recs| == |rids| && j < |recs|
    requires forall m :: j < m < |recs| ==> Key(recs[m], ix.cols) != Key(recs[j], ix.cols)
    ensures Key(recs[j], ix.cols) in PutRows(ix, recs, rids).entries
    ensures PutRows(ix, recs, rids).entries[Key(recs[j], ix.cols)] == rids[j]
    decreases |recs|
  {
    var n := |recs| - 1;
    var front := PutRows(ix, recs[..n], rids[..n]);
    assert PutRows(ix, recs, rids) == PutKey(front, recs[n], rids[n]);
    if j < n {
      var rs := recs[..n];
      assert rs[j] == recs[j] && rids[..n][j] == rids[j];
      forall m | j < m < |rs| ensures Key(rs[m], ix.cols) != Key(rs[j], ix.cols) {
        assert rs[m] == recs[m];
      }
      PutRowsLast(ix, rs, rids[..n], j);
      PutKeyOther(front, recs[n], rids[n], Key(recs[j], ix.cols));
    } else {
      PutKeySame(front, recs[n], rids[n]);
    }
  }

  /** Putting one record's key leaves every other key's entry as it was. */
  lemma PutKeyOther(ix: Index, rec: seq<byte>, rid: Rid, k: seq<byte>)
    requires k in ix.entries && k != Key(rec, ix.cols)
    ensures k in PutKey(ix, rec, rid).entries && PutKey(ix, rec, rid).entries[k] == ix.entries[k]
  {
  }

  /** Putting a record's key makes that key point at its rid. */
  lemma PutKeySame(ix: Index, rec: seq<byte>, rid: Rid)
    ensures Key(rec, ix.cols) in PutKey(ix, rec, rid).entries && PutKey(ix, rec, rid).entries[Key(rec, ix.cols)] == rid
  {
  }

  /** With distinct rids, each rid ends up holding its new tuple. */
  lemma {:induction false} OverwriteAt(records: map<Rid, seq<byte>>, rids: seq<Rid>, news: seq<seq<byte>>, j: nat)
    requires |rids| == |news| && Distinct(rids) && j < |rids|
    ensures rids[j] in Overwrite(records, rids, news) && Overwrite(records, rids, news)[rids[j]] == news[j]
    decreases |rids|
  {
    var n := |rids| - 1;
    if j < n {
      assert rids[..n][j] == rids[j] && news[..n][j] == news[j];
      OverwriteAt(records, rids[..n], news[..n], j);
    }
  }

  /**
   * On a conflict, putting the old keys back into the indexes they were
   * taken from gives the indexes as they were, when those agreed with
   * the records.
   */
  lemma RestoreIndex(records: map<Rid, seq<byte>>, ix: Index, rids: seq<Rid>, olds: seq<seq<byte>>)
    requires IndexMatches(records, ix) && Distinct(rids) && |olds| == |rids|
    requires forall j :: 0 <= j < |rids| ==> rids[j] in records && olds[j] == records[rids[j]]
    ensures PutRows(DropRows(ix, olds), olds, rids) == ix
  {
    var p := PutRows(DropRows(ix, olds), olds, rids);
    forall k ensures (k in p.entries <==> k in ix.entries) && (k in ix.entries ==> p.entries[k] == ix.entries[k]) {
      RestoreKey(records, ix, rids, olds, k);
    }
    assert p.entries == ix.entries;
  }

  lemma RestoreKey(records: map<Rid, seq<byte>>, ix: Index, rids: seq<Rid>, olds: seq<seq<byte>>, k: seq<byte>)
    requires IndexMatches(records, ix) && Distinct(rids) && |olds| == |rids|
    requires forall j :: 0 <= j < |rids| ==> rids[j] in records && olds[j] == records[rids[j]]
    ensures var p := PutRows(DropRows(ix, olds), olds, rids);
      (k in p.entries <==> k in ix.entries) && (k in ix.entries ==> p.entries[k] == ix.entries[k])
  {
    var c := DropRows(ix, olds);
    DropRowsAt(ix, olds, k);
    PutRowsAt(c, olds, rids, k);
    if KeyAmong(k, olds, ix.cols) {
      var j :| 0 <= j < |olds| && Key(olds[j], ix.cols) == k;
      forall m | j < m < |olds| ensures Key(olds[m], ix.cols) != Key(olds[j], ix.cols) {
        assert ix.entries[Key(records[rids[m]], ix.cols)] == rids[m];
      }
      PutRowsLast(c, olds, rids, j);
    }
  }

  /**
   * Without a clash, the index with the old keys dropped and the new ones
   * put agrees with the records overwritten by the new tuples.
   */
  lemma UpdateIndexKeeps(records: map<Rid, seq<byte>>, ix: Index, rids: seq<Rid>, olds: seq<seq<byte>>, news: seq<seq<byte>>)
    requires IndexMatches(records, ix) && Distinct(rids) && |olds| == |rids| == |news|
    requires forall j :: 0 <= j < |rids| ==> rids[j] in records && olds[j] == records[rids[j]]
    requires !Clash(DropRows(ix, olds), news)
    ensures IndexMatches(Overwrite(records, rids, news), PutRows(DropRows(ix, olds), news, rids))
  {
    var c := DropRows(ix, olds);
    var p := PutRows(c, news, rids);
    var recs := Overwrite(records, rids, news);
    forall j | 0 <= j < |news|
      ensures Key(news[j], ix.cols) in p.entries && p.entries[Key(news[j], ix.cols)] == rids[j]
      ensures rids[j] in recs && recs[rids[j]] == news[j]
    {
      assert !ClashAt(c, news, j);
      PutRowsLast(c, news, rids, j);
      OverwriteAt(records, rids, news, j);
    }
    forall k | k in p.entries ensures p.entries[k] in recs && Key(recs[p.entries[k]], ix.cols) == k {
      PutRowsAt(c, news, rids, k);
      if !KeyAmong(k, news, ix.cols) {
        DropRowsAt(ix, olds, k);
        var r := ix.entries[k];
        forall j | 0 <= j < |rids| ensures rids[j] != r {
          assert Key(olds[j], ix.cols) != k;
        }
        OverwriteElsewhere(records, rids, news, r);
      }
    }
    forall r | r in recs ensures Key(recs[r], ix.cols) in p.entries && p.entries[Key(recs[r], ix.cols)] == r {
      if r !in rids {
        OverwriteElsewhere(records, rids, news, r);
        var k := Key(records[r], ix.cols);
        DropRowsAt(ix, olds, k);
        forall j | 0 <= j < |olds| ensures Key(olds[j], ix.cols) != k {
          assert ix.entries[Key(records[rids[j]], ix.cols)] == rids[j];
        }
        PutRowsAt(c, news, rids, k);
        forall j | 0 <= j < |news| ensures Key(news[j], ix.cols) != k {
          assert !ClashAt(c, news, j);
        }
      }
    }
  }

  /** On a conflict the indexes come back as they were. */
  lemma ConflictRestores(t: Table, rids: seq<Rid>)
    requires Consistent(t) && Distinct(rids) && forall j :: 0 <= j < |rids| ==> rids[j] in t.records
    ensures PutAll(DropAll(t.indexes, Olds(t, rids)), Olds(t, rids), rids) == t.indexes
  {
    var olds := Olds(t, rids);
    forall i | 0 <= i < |t.indexes| ensures PutRows(DropRows(t.indexes[i], olds), olds, rids) == t.indexes[i] {
      RestoreIndex(t.records, t.indexes[i], rids, olds);
    }
  }

  /** Without a conflict the updated table's indexes agree with its records. */
  lemma UpdateKeeps(t: Table, rids: seq<Rid>, news: seq<seq<byte>>)
    requires Consistent(t) && Distinct(rids) && |news| == |rids| && forall j :: 0 <= j < |rids| ==> rids[j] in t.records
    requires !Conflict(DropAll(t.indexes, Olds(t, rids)), news)
    ensures Consistent(Table(Overwrite(t.records, rids, news), PutAll(DropAll(t.indexes, Olds(t, rids)), news, rids)))
  {
    var olds := Olds(t, rids);
    var cleared := DropAll(t.indexes, olds);
    forall i | 0 <= i < |t.indexes|
      ensures IndexMatches(Overwrite(t.records, rids, news), PutRows(DropRows(t.indexes[i], olds), news, rids))
    {
      assert !Clash(cleared[i], news);
      UpdateIndexKeeps(t.records, t.indexes[i], rids, olds, news);
    }
  }

  /**
   * An update that gets past its SET clauses keeps the tables consistent;
   * when it reports failure the tables and the write set are as they were.
   */
  lemma OutcomeKeeps(db: Db, db': Db, name: string, cols: seq<ColMeta>, sets: seq<SetClause>, rids: seq<Rid>,
                     ws0: seq<WriteRecord>, ws: seq<WriteRecord>, ok: bool)
    requires DbConsistent(db) && Prepared(db, name, cols, sets, rids)
    requires Outcome(db, db', name, cols, sets, rids, ws0, ws, ok)
    ensures DbConsistent(db')
    ensures !ok ==> db' == db && ws == ws0
  {
    if ok {
      OkKeeps(db, name, rids, Updated(Olds(db[name], rids), sets, cols));
    } else {
      ConflictLeaves(db, name, rids);
    }
  }

  /** Without a conflict, the table updated in place keeps the database consistent. */
  lemma OkKeeps(db: Db, name: string, rids: seq<Rid>, news: seq<seq<byte>>)
    requires DbConsistent(db) && name in db && Distinct(rids) && |news| == |rids|
    requires forall j :: 0 <= j < |rids| ==> rids[j] in db[name].records
    requires !Conflict(DropAll(db[name].indexes, Olds(db[name], rids)), news)
    ensures DbConsistent(db[name := Table(Overwrite(db[name].records, rids, news), PutAll(DropAll(db[name].indexes, Olds(db[name], rids)), news, rids))])
  {
    var t := db[name];
    UpdateKeeps(t, rids, news);
    ReplaceKeeps(db, name, Table(Overwrite(t.records, rids, news), PutAll(DropAll(t.indexes, Olds(t, rids)), news, rids)));
  }

  /** On a conflict, the old keys put back leave the database as it was. */
  lemma ConflictLeaves(db: Db, name: string, rids: seq<Rid>)
    requires DbConsistent(db) && name in db && Distinct(rids)
    requires forall j :: 0 <= j < |rids| ==> rids[j] in db[name].records
    ensures db[name := Table(db[name].records, PutAll(DropAll(db[name].indexes, Olds(db[name], rids)), Olds(db[name], rids), rids))] == db
  {
    var t := db[name];
    ConflictRestores(t, rids);
    assert Table(t.records, PutAll(DropAll(t.indexes, Olds(t, rids)), Olds(t, rids), rids)) == t;
  }

  /** Replacing one table by a consistent one keeps the database consistent. */
  lemma ReplaceKeeps(db: Db, name: string, t: Table)
    requires DbConsistent(db) && Consistent(t)
    ensures DbConsistent(db[name := t])
  {
  }

  // ---------------------------------------------------------------------
  // The executor's steps.

  /**
   * One SET clause on one tuple: the clause's value converted in place (a
   * Value set from the clause's literal), then the lhs column written.
   */
  method ApplyOne(t: seq<byte>, s: SetClause, cols: seq<ColMeta>) returns (r: Result<(seq<byte>, Literal), DbError>)
    requires NoFloat(cols) && Laid(cols, t) && InRange(s.rhs)
    ensures r == SetStep(t, s, cols)
    ensures r.Ok? ==> InRange(r.value.1)
  {
    var lhs := FindCol(cols, s.lhs);
    if lhs.Err? {
      return Err(lhs.error);
    }
    var lc := lhs.value;
    var c := ConvertValue(s.rhs, lc);
    if c.Err? {
      return Err(c.error);
    }
    var lit := c.value;
    var w: seq<byte>;
    if s.rhsCol == "" {
      w := Place(t, lc, lit.raw);
    } else {
      var rhs := FindCol(cols, s.rhsCol);
      if rhs.Err? {
        return Err(rhs.error);
      }
      assert Write(t, lc, lit, s.rhsCol, cols) == AddTo(t, lc, rhs.value, lit.num);
      if lc.colType == TypeInt {
        w := Place(t, lc, Int32Bytes(Wrap32(IntAt(t, rhs.value.offset) + lit.num)));
      } else if lc.colType == TypeBigint {
        w := Place(t, lc, Int64Bytes(Wrap64(BigintAt(t, rhs.value.offset) + lit.num)));
      } else {
        return Err(UnsupportedType);
      }
    }
    assert Write(t, lc, lit, s.rhsCol, cols) == Ok(w);
    return Ok((w, lit));
  }

  /** The loop over set_clauses_ for one tuple, each clause's value converted where it stands. */
  method ApplySets(tuple: seq<byte>, sets: seq<SetClause>, cols: seq<ColMeta>)
    returns (r: Result<(seq<byte>, seq<SetClause>), DbError>)
    requires NoFloat(cols) && Laid(cols, tuple) && forall j :: 0 <= j < |sets| ==> InRange(sets[j].rhs)
    ensures r == SetRow(tuple, sets, cols)
    ensures r.Ok? ==> forall j :: 0 <= j < |sets| ==> InRange(r.value.1[j].rhs)
  {
    var t := tuple;
    var done: seq<SetClause> := [];
    var i := 0;
    while i < |sets|
      invariant i <= |sets| && SetRow(tuple, sets[..i], cols) == Ok((t, done))
      invariant |done| == i && forall j :: 0 <= j < i ==> InRange(done[j].rhs)
    {
      assert Laid(cols, t);
      var step := ApplyOne(t, sets[i], cols);
      SetRowNext(tuple, sets, cols, i, t, done, step);
      if step.Err? {
        SetRowStopsAt(tuple, sets, cols, i + 1);
        return Err(step.error);
      }
      t := step.value.0;
      done := done + [sets[i].(rhs := step.value.1)];
      i := i + 1;
    }
    assert sets[..|sets|] == sets;
    return Ok((t, done));
  }

  /** rec's key deleted from every index: the old keys taken out for one row. */
  lemma DroppedOneMore(ixs: seq<Index>, ixs': seq<Index>, base: seq<Index>, olds: seq<seq<byte>>, j: nat)
    requires j < |olds| && |ixs| == |base| && |ixs'| == |ixs|
    requires forall k :: 0 <= k < |ixs| ==> ixs[k] == DropRows(base[k], olds[..j])
    requires forall k :: 0 <= k < |ixs| ==> ixs'[k] == DropKey(ixs[k], olds[j])
    ensures forall k :: 0 <= k < |ixs| ==> ixs'[k] == DropRows(base[k], olds[..j + 1])
  {
    assert olds[..j + 1][..j] == olds[..j];
  }

  /** The old keys of all rows deleted from every index, row by row. */
  method DropOldKeys(ixs: seq<Index>, olds: seq<seq<byte>>) returns (ixs': seq<Index>)
    ensures ixs' == DropAll(ixs, olds)
  {
    ixs' := ixs;
    var j := 0;
    while j < |olds|
      invariant j <= |olds| && |ixs'| == |ixs|
      invariant forall k :: 0 <= k < |ixs| ==> ixs'[k] == DropRows(ixs[k], olds[..j])
    {
      var next := DeleteEntries(ixs', olds[j]);
      DroppedOneMore(ixs', next, ixs, olds, j);
      ixs' := next;
      j := j + 1;
    }
    assert olds[..|olds|] == olds;
  }

  /** The keys of recs, with their rids, inserted into one index, row by row. */
  method PutEntries(ix: Index, recs: seq<seq<byte>>, rids: seq<Rid>) returns (ix': Index)
    requires |recs| == |rids|
    ensures ix' == PutRows(ix, recs, rids)
  {
    ix' := ix;
    var j := 0;
    while j < |recs|
      invariant j <= |recs| && ix' == PutRows(ix, recs[..j], rids[..j])
    {
      assert recs[..j + 1][..j] == recs[..j] && rids[..j + 1][..j] == rids[..j];
      var key := BuildKey(recs[j], ix.cols);
      ix' := ix'.(entries := ix'.entries[key := rids[j]]);
      j := j + 1;
    }
    assert recs[..|recs|] == recs && rids[..|rids|] == rids;
  }

  /** The keys of recs inserted into every index, index by index. */
  method PutKeys(ixs: seq<Index>, recs: seq<seq<byte>>, rids: seq<Rid>) returns (ixs': seq<Index>)
    requires |recs| == |rids|
    ensures ixs' == PutAll(ixs, recs, rids)
  {
    ixs' := ixs;
    var i := 0;
    while i < |ixs|
      invariant i <= |ixs| && |ixs'| == |ixs|
      invariant forall k :: 0 <= k < i ==> ixs'[k] == PutRows(ixs[k], recs, rids)
      invariant forall k :: i <= k < |ixs| ==> ixs'[k] == ixs[k]
    {
      var ix := PutEntries(ixs[i], recs, rids);
      ixs' := ixs'[i := ix];
      i := i + 1;
    }
  }

  /** Whether row j's new key is also the new key of a later row: the innermost loop of the check. */
  method LaterSame(ix: Index, news: seq<seq<byte>>, j: nat) returns (same: bool)
    requires j < |news|
    ensures same <==> exists k :: j < k < |news| && Key(news[j], ix.cols) == Key(news[k], ix.cols)
  {
    var key := BuildKey(news[j], ix.cols);
    var k := j + 1;
    while k < |news|
      invariant j < k <= |news|
      invariant forall m :: j < m < k ==> Key(news[j], ix.cols) != Key(news[m], ix.cols)
    {
      var other := BuildKey(news[k], ix.cols);
      if key == other {
        return true;
      }
      k := k + 1;
    }
    return false;
  }

  /** The conflict check for one index. */
  method ClashIn(ix: Index, news: seq<seq<byte>>) returns (clash: bool)
    ensures clash == Clash(ix, news)
  {
    var j := 0;
    while j < |news|
      invariant j <= |news|
      invariant forall m :: 0 <= m < j ==> !ClashAt(ix, news, m)
    {
      var c := RowClashes(ix, news, j);
      if c {
        return true;
      }
      j := j + 1;
    }
    return false;
  }

  /** One row of the check: a later row with the same new key, then the index lookup. */
  method RowClashes(ix: Index, news: seq<seq<byte>>, j: nat) returns (clash: bool)
    requires j < |news|
    ensures clash == ClashAt(ix, news, j)
  {
    clash := LaterSame(ix, news, j);
    if !clash {
      var key := BuildKey(news[j], ix.cols);
      clash := key in ix.entries;
    }
  }

  /** The conflict check: index by index, stopping at the first clash. */
  method FindConflict(ixs: seq<Index>, news: seq<seq<byte>>) returns (conflict: bool)
    ensures conflict == Conflict(ixs, news)
  {
    var i := 0;
    while i < |ixs|
      invariant i <= |ixs| && forall m :: 0 <= m < i ==> !Clash(ixs[m], news)
    {
      var c := ClashIn(ixs[i], news);
      if c {
        return true;
      }
      i := i + 1;
    }
    return false;
  }

  /** Overwriting one more rid extends the fold. */
  lemma OverwriteStep(records: map<Rid, seq<byte>>, rids: seq<Rid>, news: seq<seq<byte>>, k: nat)
    requires k < |rids| == |news|
    ensures Overwrite(records, rids[..k + 1], news[..k + 1]) == Overwrite(records, rids[..k], news[..k])[rids[k] := news[k]]
  {
    assert rids[..k + 1][..k] == rids[..k] && news[..k + 1][..k] == news[..k];
  }

  /** A rid none of the overwrites touch keeps its record. */
  lemma {:induction false} OverwriteElsewhere(records: map<Rid, seq<byte>>, rids: seq<Rid>, news: seq<seq<byte>>, r: Rid)
    requires |rids| == |news| && r !in rids
    ensures r in Overwrite(records, rids, news) <==> r in records
    ensures r in records ==> Overwrite(records, rids, news)[r] == records[r]
    decreases |rids|
  {
    if rids != [] {
      var n := |rids| - 1;
      assert r !in rids[..n];
      OverwriteElsewhere(records, rids[..n], news[..n], r);
    }
  }

  /**
   * One rid of the write loop: the write record with the record as it is,
   * the log record when logging is on (new and old image), then
   * update_record.
   */
  method UpdateOne(log: LogManager, logging: bool, logLen: nat, txn: Transaction,
                   records: map<Rid, seq<byte>>, name: string, rid: Rid, rec: seq<byte>)
    returns (records': map<Rid, seq<byte>>)
    requires rid in records
    requires log.Valid() && 0 < logLen <= log.capacity
    modifies txn`writeSet, txn`prevLsn
    modifies log`logBuffer, log`offset, log`flushBuffer, log`flushOffset, log`disk, log`persistLsn, log`needFlush, log`globalLsn
    ensures log.Valid()
    ensures records' == records[rid := rec]
    ensures txn.writeSet == old(txn.writeSet) + [WriteRecord(UpdateTuple, name, rid, records[rid])]
    ensures !logging ==> txn.prevLsn == old(txn.prevLsn) && log.disk + log.logBuffer == old(log.disk + log.logBuffer)
    ensures logging ==> txn.prevLsn == old(log.globalLsn)
                        && log.disk + log.logBuffer == old(log.disk + log.logBuffer)
                           + [DataLog(UpdateLog, txn.id, old(txn.prevLsn), logLen, name, rid, rec, records[rid]).(lsn := txn.prevLsn)]
  {
    var image := records[rid];
    txn.writeSet := txn.writeSet + [WriteRecord(UpdateTuple, name, rid, image)];
    if logging {
      var _ := LogWrite(log, txn, UpdateLog, logLen, name, rid, rec, image);
    }
    records' := records[rid := rec];
  }

  /** The write loop over the rids once the new keys are in. */
  method WriteRows(log: LogManager, logging: bool, logLen: nat, txn: Transaction,
                   records: map<Rid, seq<byte>>, name: string, rids: seq<Rid>, news: seq<seq<byte>>)
    returns (records': map<Rid, seq<byte>>)
    requires Distinct(rids) && |news| == |rids| && forall j :: 0 <= j < |rids| ==> rids[j] in records
    requires log.Valid() && 0 < logLen <= log.capacity
    modifies txn`writeSet, txn`prevLsn
    modifies log`logBuffer, log`offset, log`flushBuffer, log`flushOffset, log`disk, log`persistLsn, log`needFlush, log`globalLsn
    ensures log.Valid()
    ensures records' == Overwrite(records, rids, news)
    ensures txn.writeSet == old(txn.writeSet) + UpdateWrites(name, rids, Olds(Table(records, []), rids))
  {
    ghost var olds := Olds(Table(records, []), rids);
    ghost var ws0 := txn.writeSet;
    records' := records;
    var k := 0;
    while k < |rids|
      invariant k <= |rids| && log.Valid()
      invariant records' == Overwrite(records, rids[..k], news[..k])
      invariant txn.writeSet == ws0 + UpdateWrites(name, rids[..k], olds[..k])
    {
      assert rids[k] !in rids[..k];
      OverwriteElsewhere(records, rids[..k], news[..k], rids[k]);
      OverwriteStep(records, rids, news, k);
      assert UpdateWrites(name, rids[..k + 1], olds[..k + 1]) == UpdateWrites(name, rids[..k], olds[..k]) + [WriteRecord(UpdateTuple, name, rids[k], olds[k])];
      records' := UpdateOne(log, logging, logLen, txn, records', name, rids[k], news[k]);
      k := k + 1;
    }
    assert rids[..|rids|] == rids && news[..|news|] == news && olds[..|rids|] == olds;
  }

  /**
   * The part after every row's SET clauses went through, with the old keys
   * already out of the indexes (cleared): the conflict check, then either
   * the old keys back and "failure", or the new keys in and the writes.
   */
  method Finish(log: LogManager, logging: bool, logLen: nat, txn: Transaction, db: Db, name: string,
                rids: seq<Rid>, olds: seq<seq<byte>>, news: seq<seq<byte>>, cleared: seq<Index>)
    returns (ok: bool, db': Db)
    requires name in db && Distinct(rids) && |news| == |rids|
    requires forall j :: 0 <= j < |rids| ==> rids[j] in db[name].records
    requires olds == Olds(db[name], rids)
    requires log.Valid() && 0 < logLen <= log.capacity
    modifies txn`writeSet, txn`prevLsn
    modifies log`logBuffer, log`offset, log`flushBuffer, log`flushOffset, log`disk, log`persistLsn, log`needFlush, log`globalLsn
    ensures log.Valid()
    ensures ok == !Conflict(cleared, news)
    ensures ok ==> db' == db[name := Table(Overwrite(db[name].records, rids, news), PutAll(cleared, news, rids))]
                   && txn.writeSet == old(txn.writeSet) + UpdateWrites(name, rids, olds)
    ensures !ok ==> db' == db[name := Table(db[name].records, PutAll(cleared, olds, rids))]
                    && txn.writeSet == old(txn.writeSet) && txn.prevLsn == old(txn.prevLsn)
  {
    var conflict := FindConflict(cleared, news);
    if conflict {
      var ixs := PutKeys(cleared, olds, rids);
      return false, db[name := Table(db[name].records, ixs)];
    }
    var ixs := PutKeys(cleared, news, rids);
    assert Olds(Table(db[name].records, []), rids) == olds;
    var records := WriteRows(log, logging, logLen, txn, db[name].records, name, rids, news);
    return true, db[name := Table(records, ixs)];
  }

  /**
   * Next as written: row by row, the old keys are deleted from every index
   * and then the SET clauses are applied, so when a clause fails (a
   * string too long for its column, a malformed datetime, an unknown
   * column, an unsupported type) the exception leaves the first row's
   * keys deleted from the indexes while its record stays, and no write
   * record remembers them. A clause can only fail on the first row.
   */
  method NextAsWritten(log: LogManager, logging: bool, logLen: nat, txn: Transaction, db: Db, name: string,
                       cols: seq<ColMeta>, sets: seq<SetClause>, rids: seq<Rid>)
    returns (r: Result<bool, DbError>, db': Db)
    requires Prepared(db, name, cols, sets, rids)
    requires log.Valid() && 0 < logLen <= log.capacity
    modifies txn`writeSet, txn`prevLsn
    modifies log`logBuffer, log`offset, log`flushBuffer, log`flushOffset, log`disk, log`persistLsn, log`needFlush, log`globalLsn
    ensures log.Valid()
    ensures r.Err? <==> |rids| > 0 && SetRow(db[name].records[rids[0]], sets, cols).Err?
    ensures r.Err? ==> && SetRow(db[name].records[rids[0]], sets, cols) == Err(r.error)
                       && db' == db[name := Table(db[name].records, DropAll(db[name].indexes, [db[name].records[rids[0]]]))]
                       && txn.writeSet == old(txn.writeSet) && txn.prevLsn == old(txn.prevLsn)
    ensures r.Ok? ==> Outcome(db, db', name, cols, sets, rids, old(txn.writeSet), txn.writeSet, r.value)
  {
    var t := db[name];
    var olds := Olds(t, rids);
    var rows, ixs := DropThenSet(t.indexes, olds, sets, cols);
    if rows.Err? {
      return Err(rows.error), db[name := Table(t.records, ixs)];
    }
    var ok;
    ok, db' := Finish(log, logging, logLen, txn, db, name, rids, olds, rows.value, ixs);
    return Ok(ok), db';
  }

  /**
   * The loop over the rids as written: a row's old keys are deleted from
   * every index, then its SET clauses applied; a failing clause (only the
   * first row's can fail) stops the loop with that row's keys deleted.
   */
  method DropThenSet(base: seq<Index>, olds: seq<seq<byte>>, sets: seq<SetClause>, cols: seq<ColMeta>)
    returns (r: Result<seq<seq<byte>>, DbError>, ixs: seq<Index>)
    requires NoFloat(cols) && (forall j :: 0 <= j < |olds| ==> Laid(cols, olds[j]))
    requires forall k :: 0 <= k < |sets| ==> InRange(sets[k].rhs)
    ensures r.Err? ==> |olds| > 0 && SetRow(olds[0], sets, cols) == Err(r.error) && ixs == DropAll(base, [olds[0]])
    ensures r.Ok? ==> AllSet(olds, sets, cols) && r.value == Updated(olds, sets, cols) && ixs == DropAll(base, olds)
  {
    ixs := base;
    var news: seq<seq<byte>> := [];
    var cur := sets;
    var j := 0;
    while j < |olds|
      invariant j <= |olds| && |ixs| == |base| && |news| == j
      invariant forall k :: 0 <= k < |ixs| ==> ixs[k] == DropRows(base[k], olds[..j])
      invariant SetSoFar(olds, sets, cols, news, j)
      invariant j == 0 ==> cur == sets
      invariant j > 0 ==> cur == SetRow(olds[0], sets, cols).value.1
      invariant forall k :: 0 <= k < |cur| ==> InRange(cur[k].rhs)
    {
      var dropped := DeleteEntries(ixs, olds[j]);
      DroppedOneMore(ixs, dropped, base, olds, j);
      ixs := dropped;
      var row := RowOf(olds, sets, cols, cur, j);
      if row.Err? {
        assert olds[..1] == [olds[0]];
        return Err(row.error), ixs;
      }
      SetSoFarStep(olds, sets, cols, news, j, row);
      news := news + [row.value.0];
      cur := row.value.1;
      j := j + 1;
    }
    assert olds[..|olds|] == olds;
    return Ok(news), ixs;
  }

  /**
   * Next with the SET clauses applied to every row before any index is
   * touched: a failing clause leaves the tables and the transaction as
   * they were; otherwise the outcome is that of the source.
   */
  method Next(log: LogManager, logging: bool, logLen: nat, txn: Transaction, db: Db, name: string,
              cols: seq<ColMeta>, sets: seq<SetClause>, rids: seq<Rid>)
    returns (r: Result<bool, DbError>, db': Db)
    requires Prepared(db, name, cols, sets, rids)
    requires log.Valid() && 0 < logLen <= log.capacity
    modifies txn`writeSet, txn`prevLsn
    modifies log`logBuffer, log`offset, log`flushBuffer, log`flushOffset, log`disk, log`persistLsn, log`needFlush, log`globalLsn
    ensures log.Valid()
    ensures r.Err? <==> |rids| > 0 && SetRow(db[name].records[rids[0]], sets, cols).Err?
    ensures r.Err? ==> && SetRow(db[name].records[rids[0]], sets, cols) == Err(r.error)
                       && db' == db && txn.writeSet == old(txn.writeSet) && txn.prevLsn == old(txn.prevLsn)
    ensures r.Ok? ==> Outcome(db, db', name, cols, sets, rids, old(txn.writeSet), txn.writeSet, r.value)
  {
    var t := db[name];
    var olds := Olds(t, rids);
    var news := NewTuples(olds, sets, cols);
    if news.Err? {
      return Err(news.error), db;
    }
    var cleared := DropOldKeys(t.indexes, olds);
    var ok;
    ok, db' := Finish(log, logging, logLen, txn, db, name, rids, olds, news.value, cleared);
    return Ok(ok), db';
  }

  /**
   * Row j's SET clauses, applied with the clauses as the rows before left
   * them: the same as the original clauses, and never failing after the
   * first row.
   */
  method RowOf(olds: seq<seq<byte>>, sets: seq<SetClause>, cols: seq<ColMeta>, cur: seq<SetClause>, j: nat)
    returns (row: Result<(seq<byte>, seq<SetClause>), DbError>)
    requires NoFloat(cols) && (forall m :: 0 <= m < |olds| ==> Laid(cols, olds[m])) && j < |olds|
    requires j == 0 ==> cur == sets
    requires j > 0 ==> SetRow(olds[0], sets, cols).Ok? && cur == SetRow(olds[0], sets, cols).value.1
    requires forall k :: 0 <= k < |cur| ==> InRange(cur[k].rhs)
    ensures row == SetRow(olds[j], sets, cols) && (j > 0 ==> row.Ok?)
    ensures row.Ok? ==> row.value.1 == SetRow(olds[0], sets, cols).value.1
                        && forall k :: 0 <= k < |row.value.1| ==> InRange(row.value.1[k].rhs)
  {
    row := ApplySets(olds[j], cur, cols);
    if j > 0 {
      SetRowStable(olds[0], olds[j], sets, cols);
    }
  }

  /** The SET clauses applied to every row in order, the clauses' values converted in place by the first. */
  method NewTuples(olds: seq<seq<byte>>, sets: seq<SetClause>, cols: seq<ColMeta>) returns (r: Result<seq<seq<byte>>, DbError>)
    requires NoFloat(cols) && (forall j :: 0 <= j < |olds| ==> Laid(cols, olds[j]))
    requires forall k :: 0 <= k < |sets| ==> InRange(sets[k].rhs)
    ensures r.Err? <==> |olds| > 0 && SetRow(olds[0], sets, cols).Err?
    ensures r.Err? ==> SetRow(olds[0], sets, cols) == Err(r.error)
    ensures r.Ok? ==> AllSet(olds, sets, cols) && r.value == Updated(olds, sets, cols)
  {
    var news: seq<seq<byte>> := [];
    var cur := sets;
    var j := 0;
    while j < |olds|
      invariant j <= |olds| && |news| == j
      invariant SetSoFar(olds, sets, cols, news, j)
      invariant j == 0 ==> cur == sets
      invariant j > 0 ==> cur == SetRow(olds[0], sets, cols).value.1
      invariant forall k :: 0 <= k < |cur| ==> InRange(cur[k].rhs)
    {
      var row := RowOf(olds, sets, cols, cur, j);
      if row.Err? {
        return Err(row.error);
      }
      SetSoFarStep(olds, sets, cols, news, j, row);
      news := news + [row.value.0];
      cur := row.value.1;
      j := j + 1;
    }
    if |olds| > 0 {
      assert SetRow(olds[0], sets, cols).Ok?;
    }
    return Ok(news);
  }

  // ---------------------------------------------------------------------
  // A failing SET clause, as written.

  /**
   * A SET value longer than its CHAR column fails its conversion with
   * StringOverflowError, whatever the row.
   */
  lemma OverflowingSetFails(tuple: seq<byte>, sets: seq<SetClause>, cols: seq<ColMeta>)
    requires cols == [ColMeta("t", "s", TypeString, 2, 0, true)] && |tuple| == 2
    requires sets == [SetClause("s", Literal(TypeString, 0, [97, 98, 99]), "")]
    ensures NoFloat(cols) && Laid(cols, tuple) && SetRow(tuple, sets, cols) == Err(StringOverflow)
  {
    assert FindCol(cols, "s") == Ok(cols[0]);
    assert sets[..0] == [];
  }

  /**
   * What the as-written error path leaves behind: a row's key missing
   * from every index while its record is still there, so the indexes no
   * longer agree with the records (a later lookup of that key misses the
   * row, and nothing in the write set brings the key back).
   */
  lemma ErrorLosesKey(t: Table, rid: Rid)
    requires Consistent(t) && |t.indexes| > 0 && rid in t.records
    ensures !Consistent(Table(t.records, DropAll(t.indexes, [t.records[rid]])))
  {
    var ix := DropAll(t.indexes, [t.records[rid]])[0];
    DropRowsAt(t.indexes[0], [t.records[rid]], Key(t.records[rid], t.indexes[0].cols));
    assert KeyAmong(Key(t.records[rid], t.indexes[0].cols), [t.records[rid]], t.indexes[0].cols) by {
      assert [t.records[rid]][0] == t.records[rid];
    }
    assert Key(t.records[rid], ix.cols) !in ix.entries;
  }
}
