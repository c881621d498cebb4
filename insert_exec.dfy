// The insert executor (executor_insert.h). An INSERT builds one record
// from its values (each converted to its column's type and copied to the
// column's offset), takes an exclusive lock on the table, and refuses the
// row with "failure" when any index already holds its key; otherwise the
// record is inserted, an INSERT_TUPLE write record appended, the log
// record written when logging is on, and the key put into every index. A
// LOAD reads the rows of a comma-separated file after its header line,
// and inserts each one without a lock, a uniqueness check, a write record
// or a log record. The record file's slot allocation (insert_record) is a
// parameter: a function giving a free rid for the table's records.
module InsertExec {
  import opened Wrappers
  import opened Errors
  import opened PyStr
  import opened Values
  import opened Catalog
  import opened ExecManager
  import opened IxNode
  import opened Txn
  import opened Locking
  import opened Logging
  import opened Tables
  import opened IndexWrites
  import opened LoadFile
  import opened LoadValues
  import opened FieldValues
  import opened FieldRead

  /** What makes Next give up: an exception, or the lock manager aborting the transaction. */
  datatype Failure = Thrown(error: DbError) | Abort(reason: AbortReason)

  /** insert_record's choice of a slot: never one the table already uses. */
  ghost predicate FreeSlots(alloc: map<Rid, seq<byte>> -> Rid)
  {
    forall m: map<Rid, seq<byte>> :: alloc(m) !in m
  }

  // ---------------------------------------------------------------------
  // The record.

  /** No two columns overlap. */
  predicate Apart(cols: seq<ColMeta>)
  {
    forall i, j :: 0 <= i < j < |cols| ==>
      cols[i].offset + cols[i].len <= cols[j].offset || cols[j].offset + cols[j].len <= cols[i].offset
  }

  /**
   * The record Next builds from one value per column over the record
   * buffer's initial bytes base: column by column, the value converted to
   * the column's type (convert_value_to_col_type_and_fill), refused with
   * IncompatibleTypeError when the types still differ, and col.len bytes
   * of it copied to the column's offset. The first failing column's error
   * is the result.
   */
  function Record(base: seq<byte>, cols: seq<ColMeta>, vals: seq<Literal>): (r: Result<seq<byte>, DbError>)
    requires |vals| == |cols| && NoFloat(cols) && Laid(cols, base) && AllInRange(vals)
    ensures r.Ok? ==> |r.value| == |base|
    ensures r.Err? ==> r.error == StringOverflow || r.error == DateTimeFormat || r.error == IncompatibleType
    decreases |cols|
  {
    if cols == [] then Ok(base)
    else
      var n := |cols| - 1;
      assert cols[n] in cols;
      var prev := Record(base, cols[..n], vals[..n]);
      if prev.Err? then prev
      else
        var c := Converted(vals[n], cols[n].colType, cols[n].len);
        if c.Err? then Err(c.error)
        else if c.value.litType != cols[n].colType then Err(IncompatibleType)
        else Ok(Place(prev.value, cols[n], c.value.raw))
  }

  /** Value k converted to its column's type. */
  function Conv(cols: seq<ColMeta>, vals: seq<Literal>, k: nat): Result<Literal, DbError>
    requires |vals| == |cols| && NoFloat(cols) && k < |cols|
  {
    assert cols[k] in cols;
    Converted(vals[k], cols[k].colType, cols[k].len)
  }

  /** Value k converts, and to its column's type. */
  predicate Accepted(cols: seq<ColMeta>, vals: seq<Literal>, k: nat)
    requires |vals| == |cols| && NoFloat(cols) && k < |cols|
  {
    Conv(cols, vals, k).Ok? && Conv(cols, vals, k).value.litType == cols[k].colType
  }

  /** Column k of rec holds value k converted, cut or zero-filled to the column's length. */
  predicate Filled(rec: seq<byte>, cols: seq<ColMeta>, vals: seq<Literal>, k: nat)
    requires |vals| == |cols| && NoFloat(cols) && k < |cols|
  {
    Fits(cols[k], rec) && Conv(cols, vals, k).Ok?
    && FieldOf(cols[k], rec) == Padded(Conv(cols, vals, k).value.raw, cols[k].len)
  }

  /** Every value converts, and to its column's type. */
  predicate AllAccepted(cols: seq<ColMeta>, vals: seq<Literal>)
    requires |vals| == |cols| && NoFloat(cols)
  {
    forall k :: 0 <= k < |cols| ==> Accepted(cols, vals, k)
  }

  /** A memcpy into one column leaves a column apart from it as it was. */
  lemma PlaceKeeps(tuple: seq<byte>, c: ColMeta, src: seq<byte>, d: ColMeta)
    requires Fits(c, tuple) && Fits(d, tuple)
    requires c.offset + c.len <= d.offset || d.offset + d.len <= c.offset
    ensures FieldOf(d, Place(tuple, c, src)) == FieldOf(d, tuple)
  {
    var t := Place(tuple, c, src);
    forall i | 0 <= i < d.len ensures FieldOf(d, t)[i] == FieldOf(d, tuple)[i] {
      assert t[d.offset + i] == tuple[d.offset + i];
    }
  }

  /** The record is built when the record of all but the last column is and the last value is accepted. */
  lemma RecordLast(base: seq<byte>, cols: seq<ColMeta>, vals: seq<Literal>)
    requires |vals| == |cols| && NoFloat(cols) && Laid(cols, base) && AllInRange(vals) && cols != []
    ensures Record(base, cols, vals).Ok? <==>
      Record(base, cols[..|cols| - 1], vals[..|cols| - 1]).Ok? && Accepted(cols, vals, |cols| - 1)
  {
  }

  /** All values are accepted when those but the last are and the last is. */
  lemma AcceptedPrefix(cols: seq<ColMeta>, vals: seq<Literal>)
    requires |vals| == |cols| && NoFloat(cols) && cols != []
    ensures AllAccepted(cols, vals) <==>
      AllAccepted(cols[..|cols| - 1], vals[..|cols| - 1]) && Accepted(cols, vals, |cols| - 1)
  {
    var n := |cols| - 1;
    forall k | 0 <= k < n ensures Accepted(cols[..n], vals[..n], k) == Accepted(cols, vals, k) {
      assert cols[..n][k] == cols[k] && vals[..n][k] == vals[k];
    }
  }

  /** The record is built exactly when every value converts to its column's type. */
  lemma {:induction false} RecordOk(base: seq<byte>, cols: seq<ColMeta>, vals: seq<Literal>)
    requires |vals| == |cols| && NoFloat(cols) && Laid(cols, base) && AllInRange(vals)
    ensures Record(base, cols, vals).Ok? <==> AllAccepted(cols, vals)
    decreases |cols|
  {
    if cols != [] {
      var n := |cols| - 1;
      RecordOk(base, cols[..n], vals[..n]);
      AcceptedPrefix(cols, vals);
      RecordLast(base, cols, vals);
    }
  }

  /** The column added last holds its converted value; the earlier ones keep theirs. */
  lemma RecordFieldsStep(base: seq<byte>, cols: seq<ColMeta>, vals: seq<Literal>, k: nat)
    requires |vals| == |cols| && NoFloat(cols) && Laid(cols, base) && AllInRange(vals) && Apart(cols)
    requires Record(base, cols, vals).Ok? && k < |cols|
    requires k < |cols| - 1 ==>
      && Record(base, cols[..|cols| - 1], vals[..|cols| - 1]).Ok?
      && Filled(Record(base, cols[..|cols| - 1], vals[..|cols| - 1]).value, cols[..|cols| - 1], vals[..|cols| - 1], k)
    ensures Filled(Record(base, cols, vals).value, cols, vals, k)
  {
    var n := |cols| - 1;
    assert cols[n] in cols && cols[k] in cols;
    if k < n {
      assert cols[..n][k] == cols[k];
      assert Conv(cols[..n], vals[..n], k) == Conv(cols, vals, k);
      PlaceKeeps(Record(base, cols[..n], vals[..n]).value, cols[n], Conv(cols, vals, n).value.raw, cols[k]);
    }
  }

  /**
   * Each column of a record that was built holds its converted value, cut
   * or zero-filled to the column's length.
   */
  lemma {:induction false} RecordFields(base: seq<byte>, cols: seq<ColMeta>, vals: seq<Literal>)
    requires |vals| == |cols| && NoFloat(cols) && Laid(cols, base) && AllInRange(vals) && Apart(cols)
    requires Record(base, cols, vals).Ok?
    ensures forall k :: 0 <= k < |cols| ==> Filled(Record(base, cols, vals).value, cols, vals, k)
    decreases |cols|
  {
    if cols != [] {
      var n := |cols| - 1;
      assert cols[n] in cols;
      if n > 0 {
        RecordFields(base, cols[..n], vals[..n]);
      }
      forall k | 0 <= k < |cols|
        ensures Filled(Record(base, cols, vals).value, cols, vals, k)
      {
        RecordFieldsStep(base, cols, vals, k);
      }
    }
  }

  /** Once a prefix of the columns fails, the record fails with the same error. */
  lemma {:induction false} RecordStopsAt(base: seq<byte>, cols: seq<ColMeta>, vals: seq<Literal>, i: nat)
    requires |vals| == |cols| && NoFloat(cols) && Laid(cols, base) && AllInRange(vals) && i <= |cols|
    requires Record(base, cols[..i], vals[..i]).Err?
    ensures Record(base, cols, vals) == Record(base, cols[..i], vals[..i])
    decreases |cols| - i
  {
    if i < |cols| {
      var j := i + 1;
      assert cols[..j][..i] == cols[..i] && vals[..j][..i] == vals[..i];
      RecordStopsAt(base, cols, vals, j);
    } else {
      assert cols[..i] == cols && vals[..i] == vals;
    }
  }

  /** The loop of Next over the values: conversion, type check and memcpy, column by column. */
  method BuildRecord(base: seq<byte>, cols: seq<ColMeta>, vals: seq<Literal>) returns (r: Result<seq<byte>, DbError>)
    requires |vals| == |cols| && NoFloat(cols) && Laid(cols, base) && AllInRange(vals)
    ensures r == Record(base, cols, vals)
  {
    var rec := base;
    var i := 0;
    while i < |cols|
      invariant i <= |cols| && Record(base, cols[..i], vals[..i]) == Ok(rec)
    {
      RecordStep(base, cols, vals, i, rec);
      var c := ConvertValue(vals[i], cols[i]);
      if c.Err? || c.value.litType != cols[i].colType {
        RecordStopsAt(base, cols, vals, i + 1);
        return if c.Err? then Err(c.error) else Err(IncompatibleType);
      }
      rec := Place(rec, cols[i], c.value.raw);
      i := i + 1;
    }
    assert cols[..i] == cols && vals[..i] == vals;
    return Ok(rec);
  }

  /** Column i of the loop: its converted value either fails the record or is placed in it. */
  lemma RecordStep(base: seq<byte>, cols: seq<ColMeta>, vals: seq<Literal>, i: nat, rec: seq<byte>)
    requires |vals| == |cols| && NoFloat(cols) && Laid(cols, base) && AllInRange(vals) && i < |cols|
    requires Record(base, cols[..i], vals[..i]) == Ok(rec)
    ensures cols[i].colType != TypeFloat && InRange(vals[i]) && Fits(cols[i], rec)
    ensures Conv(cols, vals, i) == Converted(vals[i], cols[i].colType, cols[i].len)
    ensures Conv(cols, vals, i).Err? ==> Record(base, cols[..i + 1], vals[..i + 1]) == Err(Conv(cols, vals, i).error)
    ensures Conv(cols, vals, i).Ok? && Conv(cols, vals, i).value.litType != cols[i].colType ==>
      Record(base, cols[..i + 1], vals[..i + 1]) == Err(IncompatibleType)
    ensures Conv(cols, vals, i).Ok? && Conv(cols, vals, i).value.litType == cols[i].colType ==>
      Record(base, cols[..i + 1], vals[..i + 1]) == Ok(Place(rec, cols[i], Conv(cols, vals, i).value.raw))
  {
    assert cols[i] in cols;
    assert cols[..i + 1][..i] == cols[..i] && vals[..i + 1][..i] == vals[..i];
    assert cols[..i + 1][i] == cols[i] && vals[..i + 1][i] == vals[i];
  }

  // ---------------------------------------------------------------------
  // INSERT.

  /** None of the indexes holds rec's key. */
  predicate KeysAbsent(ixs: seq<Index>, rec: seq<byte>)
  {
    forall k :: 0 <= k < |ixs| ==> Key(rec, ixs[k].cols) !in ixs[k].entries
  }

  lemma KeysAbsentStep(ixs: seq<Index>, i: nat, rec: seq<byte>)
    requires i < |ixs| && KeysAbsent(ixs[..i], rec) && Key(rec, ixs[i].cols) !in ixs[i].entries
    ensures KeysAbsent(ixs[..i + 1], rec)
  {
    assert ixs[..i + 1] == ixs[..i] + [ixs[i]];
  }

  /** The loop over the indexes with get_value: does any of them hold rec's key already? */
  method FindDuplicate(ixs: seq<Index>, rec: seq<byte>) returns (dup: bool)
    ensures dup <==> exists i :: 0 <= i < |ixs| && Key(rec, ixs[i].cols) in ixs[i].entries
  {
    var i := 0;
    while i < |ixs|
      invariant i <= |ixs| && KeysAbsent(ixs[..i], rec)
    {
      var key := BuildKey(rec, ixs[i].cols);
      if key in ixs[i].entries {
        return true;
      }
      KeysAbsentStep(ixs, i, rec);
      i := i + 1;
    }
    assert ixs[..i] == ixs;
    return false;
  }

  /**
   * The writes of an INSERT whose key no index holds: insert_record at
   * rid, the INSERT_TUPLE write record, the log record, and the key into
   * every index. The table afterwards is the insert write applied to it.
   */
  method InsertOne(log: LogManager, logging: bool, logLen: nat, txn: Transaction, db: Db, name: string,
                   rid: Rid, rec: seq<byte>)
    returns (db': Db)
    requires Applicable(db, Insert(name, rid, rec))
    requires log.Valid() && 0 < logLen <= log.capacity
    modifies txn`writeSet, txn`prevLsn
    modifies log`logBuffer, log`offset, log`flushBuffer, log`flushOffset, log`disk, log`persistLsn, log`needFlush, log`globalLsn
    ensures log.Valid()
    ensures db' == Do(db, Insert(name, rid, rec))
    ensures txn.writeSet == old(txn.writeSet) + [WriteOf(db, Insert(name, rid, rec))]
    ensures !logging ==> txn.prevLsn == old(txn.prevLsn) && log.disk + log.logBuffer == old(log.disk + log.logBuffer)
    ensures logging ==> txn.prevLsn == old(log.globalLsn)
                        && log.disk + log.logBuffer == old(log.disk + log.logBuffer)
                           + [DataLog(InsertLog, txn.id, old(txn.prevLsn), logLen, name, rid, rec, []).(lsn := txn.prevLsn)]
  {
    var t := db[name];
    txn.writeSet := txn.writeSet + [WriteRecord(InsertTuple, name, rid, [])];
    if logging {
      var _ := LogWrite(log, txn, InsertLog, logLen, name, rid, rec, []);
    }
    var ixs := InsertEntries(t.indexes, rec, rid);
    InsertedRow(t, rid, rec, ixs);
    db' := db[name := Table(t.records[rid := rec], ixs)];
  }

  /**
   * The constructor's value count check and Next for an INSERT: the
   * record is built; the table is locked exclusively; "failure" (false)
   * when any index holds the record's key; otherwise the insert write at
   * the slot rid, with its write record and log record, so that the
   * tables stay consistent and abort takes the insert back (see
   * Tables.DoKeeps and Tables.UndoUndoesDo).
   */
  method Next(lm: LockManager, log: LogManager, logging: bool, logLen: nat, txn: Transaction, fd: int,
              db: Db, name: string, cols: seq<ColMeta>, vals: seq<Literal>, base: seq<byte>, rid: Rid)
    returns (r: Result<bool, Failure>, db': Db)
    requires name in db && NoFloat(cols) && Laid(cols, base) && AllInRange(vals)
    requires rid !in db[name].records
    requires lm.Valid() && log.Valid() && 0 < logLen <= log.capacity
    modifies lm, txn`state, txn`lockSet, txn`writeSet, txn`prevLsn
    modifies log`logBuffer, log`offset, log`flushBuffer, log`flushOffset, log`disk, log`persistLsn, log`needFlush, log`globalLsn
    ensures lm.Valid() && log.Valid()
    ensures r == Err(Thrown(InvalidValueCount)) <==> |vals| != |cols|
    ensures |vals| == |cols| && Record(base, cols, vals).Err? <==> r.Err? && r.error.Thrown? && r.error.error != InvalidValueCount
    ensures |vals| == |cols| && Record(base, cols, vals).Err? ==> r == Err(Thrown(Record(base, cols, vals).error))
    ensures r.Ok? ==> |vals| == |cols| && Record(base, cols, vals).Ok?
                      && TableId(fd) in lm.lockTable && Holds(lm.lockTable[TableId(fd)].requests, txn.id, Exclusive)
    ensures r.Ok? ==> (r.value <==> forall i :: 0 <= i < |db[name].indexes| ==>
                        Key(Record(base, cols, vals).value, db[name].indexes[i].cols) !in db[name].indexes[i].entries)
    ensures r == Ok(true) ==>
      var op := Insert(name, rid, Record(base, cols, vals).value);
      && Applicable(db, op) && db' == Do(db, op) && txn.writeSet == old(txn.writeSet) + [WriteOf(db, op)]
      && (logging ==> txn.prevLsn == old(log.globalLsn)
                      && log.disk + log.logBuffer == old(log.disk + log.logBuffer)
                         + [DataLog(InsertLog, txn.id, old(txn.prevLsn), logLen, name, rid, op.rec, []).(lsn := txn.prevLsn)])
    ensures r != Ok(true) ==> db' == db && txn.writeSet == old(txn.writeSet) && txn.prevLsn == old(txn.prevLsn)
    ensures r != Ok(true) || !logging ==> log.disk + log.logBuffer == old(log.disk + log.logBuffer)
  {
    if |vals| != |cols| {
      return Err(Thrown(InvalidValueCount)), db;
    }
    var rec := BuildRecord(base, cols, vals);
    if rec.Err? {
      return Err(Thrown(rec.error)), db;
    }
    var locked := lm.Lock(txn, TableId(fd), Exclusive);
    if locked.Err? {
      return Err(Abort(locked.error)), db;
    }
    var t := db[name];
    var dup := FindDuplicate(t.indexes, rec.value);
    if dup {
      return Ok(false), db;
    }
    db' := InsertOne(log, logging, logLen, txn, db, name, rid, rec.value);
    return Ok(true), db';
  }

  // ---------------------------------------------------------------------
  // LOAD: the rows.

  /**
   * What LOAD needs of its file from pos on, as the source asserts it:
   * every field fits its column, and the key of every row it inserts is
   * in no index yet (insert_entry_for_load asserts it).
   */
  ghost predicate Loadable(t: Table, file: seq<byte>, pos: nat, cols: seq<ColMeta>, base: seq<byte>,
                           alloc: map<Rid, seq<byte>> -> Rid)
    requires pos <= |file| && NoFloat(cols) && Laid(cols, base)
    decreases |file| - pos
  {
    && RowFits(file, pos, cols)
    && var g := ReadValues(file, pos, cols);
       g.Ok? && g.value.more && Record(base, cols, g.value.values).Ok? ==>
         var rec := Record(base, cols, g.value.values).value;
         && (forall i :: 0 <= i < |t.indexes| ==> Key(rec, t.indexes[i].cols) !in t.indexes[i].entries)
         && Loadable(InsertRow(t, alloc(t.records), rec), file, g.value.next, cols, base, alloc)
  }

  /**
   * The table after LOAD from pos on, and how it ended: row by row, the
   * line's values, its record, insert_load_record at the slot alloc gives
   * and its key into every index, until EOF or the first error (the rows
   * before it stay inserted).
   */
  function LoadFrom(t: Table, file: seq<byte>, pos: nat, cols: seq<ColMeta>, base: seq<byte>,
                    alloc: map<Rid, seq<byte>> -> Rid): (r: (Table, Result<(), DbError>))
    requires pos <= |file| && NoFloat(cols) && Laid(cols, base) && Loadable(t, file, pos, cols, base, alloc)
    decreases |file| - pos
  {
    var g := ReadValues(file, pos, cols);
    if g.Err? then (t, Err(g.error))
    else if !g.value.more then (t, Ok(()))
    else
      var rec := Record(base, cols, g.value.values);
      if rec.Err? then (t, Err(rec.error))
      else LoadFrom(InsertRow(t, alloc(t.records), rec.value), file, g.value.next, cols, base, alloc)
  }

  /**
   * LOAD keeps a consistent table consistent, and every record that was
   * there stays as it was.
   */
  lemma {:induction false} LoadKeeps(t: Table, file: seq<byte>, pos: nat, cols: seq<ColMeta>, base: seq<byte>,
                                     alloc: map<Rid, seq<byte>> -> Rid)
    requires pos <= |file| && NoFloat(cols) && Laid(cols, base) && Loadable(t, file, pos, cols, base, alloc)
    requires Consistent(t) && FreeSlots(alloc)
    ensures Consistent(LoadFrom(t, file, pos, cols, base, alloc).0)
    ensures forall rid :: rid in t.records ==>
      rid in LoadFrom(t, file, pos, cols, base, alloc).0.records
      && LoadFrom(t, file, pos, cols, base, alloc).0.records[rid] == t.records[rid]
    decreases |file| - pos
  {
    var g := ReadValues(file, pos, cols);
    if g.Ok? && g.value.more && Record(base, cols, g.value.values).Ok? {
      var rec := Record(base, cols, g.value.values).value;
      var rid := alloc(t.records);
      InsertRowKeeps(t, rid, rec);
      LoadKeeps(InsertRow(t, rid, rec), file, g.value.next, cols, base, alloc);
    }
  }

  /**
   * Next for a LOAD: lines are read until get_values reports EOF, each
   * one's record inserted with its keys; an error stops the load with
   * the rows before it inserted.
   */
  method Load(rd: Reader, db: Db, name: string, cols: seq<ColMeta>, base: seq<byte>,
              alloc: map<Rid, seq<byte>> -> Rid) returns (r: Result<(), DbError>, db': Db)
    requires rd.Valid() && name in db && NoFloat(cols) && Laid(cols, base)
    requires Loadable(db[name], rd.file, rd.Consumed(), cols, base, alloc)
    modifies rd`curIdx, rd`curPos, rd`remain, rd`filePos, rd`block, rd.buf0, rd.buf1
    ensures rd.Valid()
    ensures db' == db[name := LoadFrom(db[name], rd.file, old(rd.Consumed()), cols, base, alloc).0]
    ensures r == LoadFrom(db[name], rd.file, old(rd.Consumed()), cols, base, alloc).1
  {
    ghost var file := rd.file;
    ghost var whole := LoadFrom(db[name], file, rd.Consumed(), cols, base, alloc);
    var t := db[name];
    var done := false;
    r := Ok(());
    while !done
      invariant rd.Valid() && rd.file == file && rd.Consumed() <= |file|
      invariant !done ==> Loadable(t, file, rd.Consumed(), cols, base, alloc) && LoadFrom(t, file, rd.Consumed(), cols, base, alloc) == whole
      invariant done ==> (t, r) == whole
      decreases !done, |file| - rd.Consumed()
    {
      done, r, t := LoadRow(rd, t, cols, base, alloc);
    }
    db' := db[name := t];
  }

  /**
   * One turn of Next's loop for a LOAD: the next line's values, its
   * record, and the record and its keys inserted; or the end of the
   * load, at EOF or at an error.
   */
  method LoadRow(rd: Reader, t: Table, cols: seq<ColMeta>, base: seq<byte>, alloc: map<Rid, seq<byte>> -> Rid)
    returns (done: bool, r: Result<(), DbError>, t': Table)
    requires rd.Valid() && NoFloat(cols) && Laid(cols, base) && Loadable(t, rd.file, rd.Consumed(), cols, base, alloc)
    modifies rd`curIdx, rd`curPos, rd`remain, rd`filePos, rd`block, rd.buf0, rd.buf1
    ensures rd.Valid()
    ensures done ==> (t', r) == LoadFrom(t, rd.file, old(rd.Consumed()), cols, base, alloc)
    ensures !done ==> old(rd.Consumed()) < rd.Consumed() <= |rd.file|
                      && Loadable(t', rd.file, rd.Consumed(), cols, base, alloc)
                      && LoadFrom(t', rd.file, rd.Consumed(), cols, base, alloc) == LoadFrom(t, rd.file, old(rd.Consumed()), cols, base, alloc)
  {
    ghost var pos := rd.Consumed();
    var more, vals := GetValues(rd, cols);
    done, r, t' := InsertRead(t, rd.file, pos, cols, base, alloc, more, vals, rd.Consumed());
  }

  /** The row get_values read (or its failure, or the end of the file) built into a record and inserted. */
  method InsertRead(t: Table, ghost file: seq<byte>, ghost pos: nat, cols: seq<ColMeta>, base: seq<byte>,
                    alloc: map<Rid, seq<byte>> -> Rid, more: Result<bool, DbError>, vals: seq<Literal>, ghost next: nat)
    returns (done: bool, r: Result<(), DbError>, t': Table)
    requires pos <= |file| && NoFloat(cols) && Laid(cols, base) && Loadable(t, file, pos, cols, base, alloc)
    requires more.Ok? <==> ReadValues(file, pos, cols).Ok?
    requires more.Err? ==> more.error == ReadValues(file, pos, cols).error
    requires more.Ok? ==> ReadValues(file, pos, cols).value == Got(more.value, vals, next)
    ensures done ==> (t', r) == LoadFrom(t, file, pos, cols, base, alloc)
    ensures !done ==> pos < next <= |file| && Loadable(t', file, next, cols, base, alloc)
                      && LoadFrom(t', file, next, cols, base, alloc) == LoadFrom(t, file, pos, cols, base, alloc)
  {
    if more.Err? {
      return true, Err(more.error), t;
    }
    if !more.value {
      return true, Ok(()), t;
    }
    var rec := BuildRecord(base, cols, vals);
    if rec.Err? {
      return true, Err(rec.error), t;
    }
    LoadStep(t, file, pos, cols, base, alloc, vals, next, rec.value);
    var rid := alloc(t.records);
    var ixs := InsertEntries(t.indexes, rec.value, rid);
    InsertedRow(t, rid, rec.value, ixs);
    return false, Ok(()), Table(t.records[rid := rec.value], ixs);
  }

  /** One row loaded: what is left of the file is loadable into the table with the row, and loads as the rest did. */
  lemma LoadStep(t: Table, file: seq<byte>, pos: nat, cols: seq<ColMeta>, base: seq<byte>,
                 alloc: map<Rid, seq<byte>> -> Rid, vals: seq<Literal>, next: nat, rec: seq<byte>)
    requires pos <= |file| && NoFloat(cols) && Laid(cols, base) && Loadable(t, file, pos, cols, base, alloc)
    requires ReadValues(file, pos, cols) == Ok(Got(true, vals, next)) && Record(base, cols, vals) == Ok(rec)
    ensures next <= |file| && |file| - next < |file| - pos
    ensures Loadable(InsertRow(t, alloc(t.records), rec), file, next, cols, base, alloc)
    ensures LoadFrom(InsertRow(t, alloc(t.records), rec), file, next, cols, base, alloc) == LoadFrom(t, file, pos, cols, base, alloc)
  {
  }

  /**
   * The load executor from its constructor on: the file opened, its
   * first line skipped (stopping at EOF, see LoadFile.SkipHeader), and
   * the rest loaded.
   */
  method LoadFileInto(file: seq<byte>, db: Db, name: string, cols: seq<ColMeta>, base: seq<byte>,
                      alloc: map<Rid, seq<byte>> -> Rid) returns (r: Result<(), DbError>, db': Db)
    requires name in db && NoFloat(cols) && Laid(cols, base)
    requires Loadable(db[name], file, SkipEnd(file, 0), cols, base, alloc)
    ensures db' == db[name := LoadFrom(db[name], file, SkipEnd(file, 0), cols, base, alloc).0]
    ensures r == LoadFrom(db[name], file, SkipEnd(file, 0), cols, base, alloc).1
  {
    var rd := new Reader.Open(file);
    rd.SkipHeader();
    r, db' := Load(rd, db, name, cols, base, alloc);
  }
}
