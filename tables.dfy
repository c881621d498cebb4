// Tables as the executors and the transaction manager change them: a
// record file seen as a map from rid to record bytes, and each index seen
// as a map from key bytes to rid. An index key is the concatenation of the
// index columns' bytes (col_tot_len long). The record file handle and the
// B+-tree behind each index are not part of this model; only the records
// and entries they hold are.
module Tables {
  import opened Wrappers
  import opened IxNode
  import opened Txn

  /** No rid twice. */
  predicate Distinct(rids: seq<Rid>)
  {
    forall i, j :: 0 <= i < j < |rids| ==> rids[i] != rids[j]
  }

  /** Where a column lives in a record: its byte offset and its length. */
  datatype ColSpan = ColSpan(offset: nat, len: nat)

  datatype Index = Index(cols: seq<ColSpan>, entries: map<seq<byte>, Rid>)

  datatype Table = Table(records: map<Rid, seq<byte>>, indexes: seq<Index>)

  /** The open tables by name (fhs_ together with the indexes of each table). */
  type Db = map<string, Table>

  /** The bytes of column c in a record; zero bytes where the record is too short to hold it. */
  function Field(rec: seq<byte>, c: ColSpan): (f: seq<byte>)
  {
    if c.offset + c.len <= |rec| then rec[c.offset..c.offset + c.len] else seq(c.len, _ => 0)
  }

  /** col_tot_len: the sum of the index columns' lengths. */
  function KeyLen(cols: seq<ColSpan>): nat
  {
    if cols == [] then 0 else KeyLen(cols[..|cols| - 1]) + cols[|cols| - 1].len
  }

  /** The index key of a record: each index column's bytes in turn. */
  function Key(rec: seq<byte>, cols: seq<ColSpan>): (k: seq<byte>)
    ensures |k| == KeyLen(cols)
  {
    if cols == [] then [] else Key(rec, cols[..|cols| - 1]) + Field(rec, cols[|cols| - 1])
  }

  /** Records that agree on every index column have the same key. */
  lemma {:induction false} KeyOfEqualColumns(r1: seq<byte>, r2: seq<byte>, cols: seq<ColSpan>)
    requires forall i :: 0 <= i < |cols| ==> Field(r1, cols[i]) == Field(r2, cols[i])
    ensures Key(r1, cols) == Key(r2, cols)
    decreases |cols|
  {
    if cols != [] {
      var n := |cols| - 1;
      var front := cols[..n];
      forall i | 0 <= i < n ensures Field(r1, front[i]) == Field(r2, front[i]) {
        assert front[i] == cols[i];
      }
      KeyOfEqualColumns(r1, r2, front);
      assert Key(r1, cols) == Key(r1, front) + Field(r1, cols[n]);
      assert Key(r2, cols) == Key(r2, front) + Field(r2, cols[n]);
    }
  }

  /**
   * An index agrees with the records: every entry points at a record with
   * that key, and every record's key is an entry pointing back at it (so
   * no two records share a key).
   */
  ghost predicate IndexMatches(records: map<Rid, seq<byte>>, ix: Index)
  {
    && (forall k :: k in ix.entries ==> ix.entries[k] in records && Key(records[ix.entries[k]], ix.cols) == k)
    && (forall r :: r in records ==> Key(records[r], ix.cols) in ix.entries && ix.entries[Key(records[r], ix.cols)] == r)
  }

  /** Every index of the table agrees with its records. */
  ghost predicate Consistent(t: Table)
  {
    forall i :: 0 <= i < |t.indexes| ==> IndexMatches(t.records, t.indexes[i])
  }

  ghost predicate DbConsistent(db: Db)
  {
    forall name :: name in db ==> Consistent(db[name])
  }

  /** No index of t holds rec's key for a record other than rid. */
  ghost predicate KeysFree(t: Table, rec: seq<byte>, rid: Rid)
  {
    forall i :: 0 <= i < |t.indexes| ==>
      Key(rec, t.indexes[i].cols) !in t.indexes[i].entries || t.indexes[i].entries[Key(rec, t.indexes[i].cols)] == rid
  }

  function PutKey(ix: Index, rec: seq<byte>, rid: Rid): Index
  {
    ix.(entries := ix.entries[Key(rec, ix.cols) := rid])
  }

  function DropKey(ix: Index, rec: seq<byte>): Index
  {
    ix.(entries := ix.entries - {Key(rec, ix.cols)})
  }

  /** insert_record at rid, then insert_entry of its key into every index. */
  function InsertRow(t: Table, rid: Rid, rec: seq<byte>): Table
  {
    Table(t.records[rid := rec], seq(|t.indexes|, i requires 0 <= i < |t.indexes| => PutKey(t.indexes[i], rec, rid)))
  }

  /** delete_entry of the record's key from every index, then delete_record. */
  function DeleteRow(t: Table, rid: Rid): Table
    requires rid in t.records
  {
    Table(t.records - {rid}, seq(|t.indexes|, i requires 0 <= i < |t.indexes| => DropKey(t.indexes[i], t.records[rid])))
  }

  /** delete_entry of the current key, insert_entry of the new one, in every index; then update_record. */
  function UpdateRow(t: Table, rid: Rid, rec: seq<byte>): Table
    requires rid in t.records
  {
    Table(t.records[rid := rec],
          seq(|t.indexes|, i requires 0 <= i < |t.indexes| => PutKey(DropKey(t.indexes[i], t.records[rid]), rec, rid)))
  }

  /** Inserting a record at a free rid whose keys are free keeps the indexes consistent. */
  lemma InsertRowKeeps(t: Table, rid: Rid, rec: seq<byte>)
    requires Consistent(t) && rid !in t.records && KeysFree(t, rec, rid)
    ensures Consistent(InsertRow(t, rid, rec))
    ensures rid in InsertRow(t, rid, rec).records
  {
    var t2 := InsertRow(t, rid, rec);
    forall i | 0 <= i < |t.indexes| ensures IndexMatches(t2.records, t2.indexes[i]) {
      var ix := t.indexes[i];
      assert Key(rec, ix.cols) !in ix.entries;
    }
  }

  /** Dropping a record's key from an index that matches the records matches the records without it. */
  lemma DropKeyKeeps(records: map<Rid, seq<byte>>, ix: Index, rid: Rid)
    requires IndexMatches(records, ix) && rid in records
    ensures IndexMatches(records - {rid}, DropKey(ix, records[rid]))
  {
    var ko := Key(records[rid], ix.cols);
    var r2 := records - {rid};
    var e2 := DropKey(ix, records[rid]).entries;
    forall k | k in e2 ensures e2[k] in r2 && Key(r2[e2[k]], ix.cols) == k {
      assert e2[k] == ix.entries[k] && k != ko;
    }
    forall r | r in r2 ensures Key(r2[r], ix.cols) in e2 && e2[Key(r2[r], ix.cols)] == r {
      assert r != rid && r2[r] == records[r];
      assert Key(records[r], ix.cols) != ko;
    }
  }

  /** Deleting a record keeps the indexes consistent. */
  lemma DeleteRowKeeps(t: Table, rid: Rid)
    requires Consistent(t) && rid in t.records
    ensures Consistent(DeleteRow(t, rid))
  {
    var t2 := DeleteRow(t, rid);
    forall i | 0 <= i < |t.indexes| ensures IndexMatches(t2.records, t2.indexes[i]) {
      DropKeyKeeps(t.records, t.indexes[i], rid);
    }
  }

  /** Updating a record to one whose keys are free keeps the indexes consistent. */
  lemma UpdateRowKeeps(t: Table, rid: Rid, rec: seq<byte>)
    requires Consistent(t) && rid in t.records && KeysFree(t, rec, rid)
    ensures Consistent(UpdateRow(t, rid, rec))
  {
    var t2 := UpdateRow(t, rid, rec);
    forall i | 0 <= i < |t.indexes| ensures IndexMatches(t2.records, t2.indexes[i]) {
      var ix := t.indexes[i];
      var ko := Key(t.records[rid], ix.cols);
      var kn := Key(rec, ix.cols);
      assert kn !in ix.entries || ix.entries[kn] == rid;
      assert kn in ix.entries ==> kn == ko;
    }
  }

  /** Undoing an insert: the row inserted at a free rid with free keys is deleted again. */
  lemma DeleteUndoesInsert(t: Table, rid: Rid, rec: seq<byte>)
    requires rid !in t.records
    requires forall i :: 0 <= i < |t.indexes| ==> Key(rec, t.indexes[i].cols) !in t.indexes[i].entries
    ensures DeleteRow(InsertRow(t, rid, rec), rid) == t
  {
    var t2 := DeleteRow(InsertRow(t, rid, rec), rid);
    assert t2.records == t.records;
    assert forall i :: 0 <= i < |t.indexes| ==> t2.indexes[i] == t.indexes[i];
  }

  /** Undoing a delete: reinserting the saved image at the same rid restores the table. */
  lemma InsertUndoesDelete(t: Table, rid: Rid)
    requires Consistent(t) && rid in t.records
    ensures InsertRow(DeleteRow(t, rid), rid, t.records[rid]) == t
  {
    var t2 := InsertRow(DeleteRow(t, rid), rid, t.records[rid]);
    assert t2.records == t.records;
    forall i | 0 <= i < |t.indexes| ensures t2.indexes[i] == t.indexes[i] {
      PutKeyBack(t.records, t.indexes[i], rid);
    }
  }

  /** On one index: dropping a record's key and putting it back gives the index back. */
  lemma PutKeyBack(records: map<Rid, seq<byte>>, ix: Index, rid: Rid)
    requires IndexMatches(records, ix) && rid in records
    ensures PutKey(DropKey(ix, records[rid]), records[rid], rid) == ix
  {
    var ko := Key(records[rid], ix.cols);
    assert ix.entries[ko] == rid;
    assert (ix.entries - {ko})[ko := rid] == ix.entries;
  }

  /** On one index: swapping a record's key for a free one and back gives the index back. */
  lemma SwapKeyBack(records: map<Rid, seq<byte>>, ix: Index, rid: Rid, rec: seq<byte>)
    requires IndexMatches(records, ix) && rid in records
    requires Key(rec, ix.cols) !in ix.entries || ix.entries[Key(rec, ix.cols)] == rid
    ensures PutKey(DropKey(PutKey(DropKey(ix, records[rid]), rec, rid), rec), records[rid], rid) == ix
  {
    var ko := Key(records[rid], ix.cols);
    var kn := Key(rec, ix.cols);
    var e := ix.entries;
    assert e[ko] == rid;
    assert kn in e ==> kn == ko;
    assert ((e - {ko})[kn := rid] - {kn})[ko := rid] == e;
  }

  /** Undoing an update: restoring the saved image (and swapping the keys back) restores the table. */
  lemma UpdateUndoesUpdate(t: Table, rid: Rid, rec: seq<byte>)
    requires Consistent(t) && rid in t.records && KeysFree(t, rec, rid)
    ensures UpdateRow(UpdateRow(t, rid, rec), rid, t.records[rid]) == t
  {
    var t2 := UpdateRow(UpdateRow(t, rid, rec), rid, t.records[rid]);
    assert t2.records == t.records;
    forall i | 0 <= i < |t.indexes| ensures t2.indexes[i] == t.indexes[i] {
      SwapKeyBack(t.records, t.indexes[i], rid, rec);
    }
  }

  /** A write a transaction makes, with what it needs to know to make it. */
  datatype Op =
    | Insert(table: string, rid: Rid, rec: seq<byte>)
    | Delete(table: string, rid: Rid)
    | Update(table: string, rid: Rid, rec: seq<byte>)

  /**
   * The checks an executor passes before writing: the table is open; an
   * insert goes to a free rid and its keys exist in no index; a delete or
   * update targets an existing record; an update's new keys are free.
   */
  ghost predicate Applicable(db: Db, op: Op)
  {
    op.table in db &&
    match op
    case Insert(name, rid, rec) =>
      rid !in db[name].records
      && forall i :: 0 <= i < |db[name].indexes| ==> Key(rec, db[name].indexes[i].cols) !in db[name].indexes[i].entries
    case Delete(name, rid) => rid in db[name].records
    case Update(name, rid, rec) => rid in db[name].records && KeysFree(db[name], rec, rid)
  }

  /** The effect of a write on the database. */
  function Do(db: Db, op: Op): Db
    requires op.table in db && (op.Delete? || op.Update? ==> op.rid in db[op.table].records)
  {
    match op
    case Insert(name, rid, rec) => db[name := InsertRow(db[name], rid, rec)]
    case Delete(name, rid) => db[name := DeleteRow(db[name], rid)]
    case Update(name, rid, rec) => db[name := UpdateRow(db[name], rid, rec)]
  }

  /**
   * The write record appended for a write: an insert keeps no image, a
   * delete or update keeps the record as it was before.
   */
  function WriteOf(db: Db, op: Op): (w: WriteRecord)
    requires op.table in db && (op.Delete? || op.Update? ==> op.rid in db[op.table].records)
    ensures w.table == op.table && w.rid == op.rid
    ensures w.kind == InsertTuple <==> op.Insert?
    ensures !op.Insert? ==> w.image == db[op.table].records[op.rid]
  {
    match op
    case Insert(name, rid, _) => WriteRecord(InsertTuple, name, rid, [])
    case Delete(name, rid) => WriteRecord(DeleteTuple, name, rid, db[name].records[rid])
    case Update(name, rid, _) => WriteRecord(UpdateTuple, name, rid, db[name].records[rid])
  }

  /** A write keeps every open table consistent. */
  lemma DoKeeps(db: Db, op: Op)
    requires DbConsistent(db) && Applicable(db, op)
    ensures DbConsistent(Do(db, op)) && Do(db, op).Keys == db.Keys
  {
    var t := db[op.table];
    match op
    case Insert(name, rid, rec) => InsertRowKeeps(t, rid, rec);
    case Delete(name, rid) => DeleteRowKeeps(t, rid);
    case Update(name, rid, rec) => UpdateRowKeeps(t, rid, rec);
  }

  /**
   * Undoing one write record, as abort does: an INSERT deletes the row at
   * rid with its keys, a DELETE reinserts the saved image at rid with its
   * keys, an UPDATE swaps the current keys for the image's and restores the
   * image. A record of a table that is not open, or an insert or update
   * whose rid holds no record, changes nothing.
   */
  function Undo(db: Db, w: WriteRecord): Db
  {
    if w.table !in db then db
    else
      var t := db[w.table];
      match w.kind
      case InsertTuple => if w.rid in t.records then db[w.table := DeleteRow(t, w.rid)] else db
      case DeleteTuple => db[w.table := InsertRow(t, w.rid, w.image)]
      case UpdateTuple => if w.rid in t.records then db[w.table := UpdateRow(t, w.rid, w.image)] else db
  }

  /** Undoing the record of a write undoes the write. */
  lemma UndoUndoesDo(db: Db, op: Op)
    requires DbConsistent(db) && Applicable(db, op)
    ensures Undo(Do(db, op), WriteOf(db, op)) == db
  {
    var t := db[op.table];
    match op
    case Insert(name, rid, rec) =>
      DeleteUndoesInsert(t, rid, rec);
      assert rid in InsertRow(t, rid, rec).records;
    case Delete(name, rid) =>
      InsertUndoesDelete(t, rid);
    case Update(name, rid, rec) =>
      UpdateUndoesUpdate(t, rid, rec);
      assert rid in UpdateRow(t, rid, rec).records;
  }

  /** Undoing a write set from its last record to its first. */
  function UndoAll(db: Db, ws: seq<WriteRecord>): Db
    decreases |ws|
  {
    if ws == [] then db else UndoAll(Undo(db, ws[|ws| - 1]), ws[..|ws| - 1])
  }

  /**
   * A transaction's writes applied in order, giving the final database and
   * its write set; None when some write fails its executor's checks.
   */
  ghost function Run(db: Db, ops: seq<Op>): Option<(Db, seq<WriteRecord>)>
    decreases |ops|
  {
    if ops == [] then Some((db, []))
    else
      match Run(db, ops[..|ops| - 1])
      case None => None
      case Some(p) =>
        var op := ops[|ops| - 1];
        if Applicable(p.0, op) then Some((Do(p.0, op), p.1 + [WriteOf(p.0, op)])) else None
  }

  /** Every state along a run is consistent. */
  lemma {:induction false} RunKeeps(db: Db, ops: seq<Op>)
    requires DbConsistent(db) && Run(db, ops).Some?
    ensures DbConsistent(Run(db, ops).value.0)
    decreases |ops|
  {
    if ops != [] {
      RunKeeps(db, ops[..|ops| - 1]);
      DoKeeps(Run(db, ops[..|ops| - 1]).value.0, ops[|ops| - 1]);
    }
  }

  /**
   * Abort restores the database: undoing the write set of any run of
   * writes, last record first, gives back the database the run started from.
   */
  lemma {:induction false} UndoAllRestores(db: Db, ops: seq<Op>)
    requires DbConsistent(db) && Run(db, ops).Some?
    ensures UndoAll(Run(db, ops).value.0, Run(db, ops).value.1) == db
    decreases |ops|
  {
    if ops != [] {
      var front := ops[..|ops| - 1];
      var p := Run(db, front).value;
      var op := ops[|ops| - 1];
      RunKeeps(db, front);
      UndoUndoesDo(p.0, op);
      assert (p.1 + [WriteOf(p.0, op)])[..|p.1|] == p.1;
      UndoAllRestores(db, front);
    }
  }
}
