// The system catalog (src/system/sm_manager.cpp): the table metadata of
// the open database, the record files and index files on disk, and the
// handles opened on them; create and drop of tables and indexes, and the
// desc table / show index listings. The metadata classes (sm_meta.h), the
// record and index managers and the metadata file are not part of this
// model: files are names in sets, and flush_meta's write of the metadata
// file is left out.
module Catalog {
  import opened Wrappers
  import opened Errors
  import opened PyStr
  import opened Values
  import Tables

  /** A column definition of CREATE TABLE. */
  datatype ColDef = ColDef(name: string, colType: ColType, len: nat)

  datatype ColMeta = ColMeta(tabName: string, name: string, colType: ColType, len: nat, offset: nat, index: bool)

  datatype IndexMeta = IndexMeta(tabName: string, colTotLen: nat, colNum: nat, cols: seq<ColMeta>)

  datatype TabMeta = TabMeta(name: string, cols: seq<ColMeta>, indexes: seq<IndexMeta>)

  /** What names an index file: its table and its column names (get_index_name). */
  datatype IndexId = IndexId(tabName: string, colNames: seq<string>)

  /** The sum of the column lengths: a record's size. */
  function RowSize(defs: seq<ColDef>): nat
  {
    if defs == [] then 0 else RowSize(defs[..|defs| - 1]) + defs[|defs| - 1].len
  }

  /**
   * The columns of a new table: each definition in order, at the offset
   * that is the sum of the lengths before it, not indexed.
   */
  function Layout(name: string, defs: seq<ColDef>): (cols: seq<ColMeta>)
    ensures |cols| == |defs|
  {
    seq(|defs|, i requires 0 <= i < |defs| =>
      ColMeta(name, defs[i].name, defs[i].colType, defs[i].len, RowSize(defs[..i]), false))
  }

  lemma RowSizeStep(defs: seq<ColDef>, i: nat)
    requires i < |defs|
    ensures RowSize(defs[..i + 1]) == RowSize(defs[..i]) + defs[i].len
  {
    assert defs[..i + 1][..i] == defs[..i];
  }

  lemma {:induction false} RowSizeMono(defs: seq<ColDef>, i: nat, j: nat)
    requires i <= j <= |defs|
    ensures RowSize(defs[..i]) <= RowSize(defs[..j])
    decreases j - i
  {
    if i < j {
      RowSizeMono(defs, i, j - 1);
      RowSizeStep(defs, j - 1);
    }
  }

  /**
   * The columns lie back to back inside the record: each one ends where
   * the next begins, the first begins at 0 and the last ends at the
   * record size, so no two columns overlap.
   */
  lemma LayoutPacked(name: string, defs: seq<ColDef>)
    ensures var cols := Layout(name, defs);
      && (|cols| > 0 ==> cols[0].offset == 0)
      && (forall i :: 0 <= i < |cols| - 1 ==> cols[i].offset + cols[i].len == cols[i + 1].offset)
      && (forall i :: 0 <= i < |cols| ==> cols[i].offset + cols[i].len <= RowSize(defs))
      && (forall i, j :: 0 <= i < j < |cols| ==> cols[i].offset + cols[i].len <= cols[j].offset)
  {
    var cols := Layout(name, defs);
    forall i | 0 <= i < |cols| ensures cols[i].offset + cols[i].len == RowSize(defs[..i + 1]) {
      RowSizeStep(defs, i);
    }
    forall i | 0 <= i < |cols| ensures cols[i].offset + cols[i].len <= RowSize(defs) {
      RowSizeMono(defs, i + 1, |defs|);
      assert defs[..|defs|] == defs;
    }
    forall i, j | 0 <= i < j < |cols| ensures cols[i].offset + cols[i].len <= cols[j].offset {
      RowSizeMono(defs, i + 1, j);
    }
  }

  /** The names of a list of columns. */
  function ColNames(cols: seq<ColMeta>): (names: seq<string>)
    ensures |names| == |cols| && forall i :: 0 <= i < |cols| ==> names[i] == cols[i].name
  {
    seq(|cols|, i requires 0 <= i < |cols| => cols[i].name)
  }

  /** Where the columns of an index live in a record. */
  function Spans(cols: seq<ColMeta>): (spans: seq<Tables.ColSpan>)
    ensures |spans| == |cols|
  {
    seq(|cols|, i requires 0 <= i < |cols| => Tables.ColSpan(cols[i].offset, cols[i].len))
  }

  /** The sum of the column lengths. */
  function TotLen(cols: seq<ColMeta>): nat
  {
    if cols == [] then 0 else TotLen(cols[..|cols| - 1]) + cols[|cols| - 1].len
  }

  /** col_tot_len is the length of the key the index keeps for a record. */
  lemma {:induction false} TotLenIsKeyLen(cols: seq<ColMeta>)
    ensures TotLen(cols) == Tables.KeyLen(Spans(cols))
    decreases |cols|
  {
    if cols != [] {
      var n := |cols| - 1;
      assert Spans(cols)[..n] == Spans(cols[..n]);
      TotLenIsKeyLen(cols[..n]);
    }
  }

  /** get_col: the first column of the table with that name; ColumnNotFoundError if none. */
  function FindCol(cols: seq<ColMeta>, name: string): (r: Result<ColMeta, DbError>)
    ensures r.Ok? ==> r.value in cols && r.value.name == name
    ensures r.Err? <==> forall i :: 0 <= i < |cols| ==> cols[i].name != name
    ensures r.Err? ==> r.error == ColumnNotFound
  {
    if cols == [] then Err(ColumnNotFound)
    else if cols[0].name == name then Ok(cols[0])
    else FindCol(cols[1..], name)
  }

  /**
   * get_index_meta: the position of the first index whose column names are
   * the given ones; IndexNotFoundError if none.
   */
  function FindIndex(indexes: seq<IndexMeta>, names: seq<string>): (r: Result<nat, DbError>)
    ensures r.Ok? ==> r.value < |indexes| && ColNames(indexes[r.value].cols) == names
    ensures r.Ok? ==> forall i :: 0 <= i < r.value ==> ColNames(indexes[i].cols) != names
    ensures r.Err? <==> forall i :: 0 <= i < |indexes| ==> ColNames(indexes[i].cols) != names
    ensures r.Err? ==> r.error == IndexNotFound
  {
    if indexes == [] then Err(IndexNotFound)
    else if ColNames(indexes[0].cols) == names then Ok(0)
    else
      match FindIndex(indexes[1..], names)
      case Ok(k) => Ok(k + 1)
      case Err(e) => Err(e)
  }

  /** An index's line of show index: `| tab | unique | (c1,c2,...) |`. */
  function IndexLine(tab: string, ix: IndexMeta): string
  {
    "| " + tab + " | unique | (" + Join(",", ColNames(ix.cols)) + ") |\n"
  }

  /** The show index text: one line per index of the table, in order. */
  function IndexListing(tab: string, indexes: seq<IndexMeta>): string
  {
    if indexes == [] then "" else IndexListing(tab, indexes[..|indexes| - 1]) + IndexLine(tab, indexes[|indexes| - 1])
  }

  /** coltype2str (defs.h, not part of this model, names the types the same way). */
  function TypeName(t: ColType): string
  {
    match t
    case TypeInt => "INT"
    case TypeBigint => "BIGINT"
    case TypeFloat => "FLOAT"
    case TypeString => "STRING"
    case TypeDatetime => "DATETIME"
  }

  /** A table's metadata agrees with its open record file and index handles. */
  predicate Describes(meta: TabMeta, t: Tables.Table)
  {
    |t.indexes| == |meta.indexes| && forall i :: 0 <= i < |meta.indexes| ==> t.indexes[i].cols == Spans(meta.indexes[i].cols)
  }

  class SmManager {
    /** db_.tabs_. */
    var tabs: map<string, TabMeta>
    /** The record files on disk, with the record size of each. */
    var files: map<string, nat>
    /** fhs_: the tables whose record file is open. */
    var fhs: set<string>
    /** The index files on disk (what ix_manager_->exists looks for). */
    var ixFiles: set<IndexId>
    /** ihs_: the indexes whose file is open. */
    var ihs: set<IndexId>
    /** The output file the listings are appended to. */
    var output: string
    /** enable_output_file. */
    var enableOutput: bool

    /**
     * Every table has its record file, open, and is stored under its own
     * name; only existing index files are open.
     */
    ghost predicate Valid()
      reads this
    {
      && files.Keys == tabs.Keys && fhs == tabs.Keys && ihs <= ixFiles
      && forall t :: t in tabs ==> tabs[t].name == t
    }

    /** An open database with no tables. */
    constructor()
      ensures Valid() && tabs == map[] && ixFiles == {} && output == [] && enableOutput
    {
      tabs := map[];
      files := map[];
      fhs := {};
      ixFiles := {};
      ihs := {};
      output := [];
      enableOutput := true;
    }

    /**
     * create_table: TableExistsError for a name in use; otherwise a table
     * whose columns are laid out back to back (see Layout and LayoutPacked),
     * a record file sized for them, opened.
     */
    method CreateTable(name: string, defs: seq<ColDef>) returns (r: Result<(), DbError>)
      requires Valid()
      modifies this`tabs, this`files, this`fhs
      ensures Valid()
      ensures name in old(tabs) ==> r == Err(TableExists) && tabs == old(tabs) && files == old(files)
      ensures name !in old(tabs) ==>
        && r == Ok(())
        && tabs == old(tabs)[name := TabMeta(name, Layout(name, defs), [])]
        && files == old(files)[name := RowSize(defs)]
    {
      if name in tabs {
        return Err(TableExists);
      }
      var offset := 0;
      var cols: seq<ColMeta> := [];
      for i := 0 to |defs|
        invariant offset == RowSize(defs[..i])
        invariant tabs == old(tabs) && files == old(files) && fhs == old(fhs)
        invariant |cols| == i
        invariant forall k :: 0 <= k < i ==> cols[k] == Layout(name, defs)[k]
      {
        cols := cols + [ColMeta(name, defs[i].name, defs[i].colType, defs[i].len, offset, false)];
        RowSizeStep(defs, i);
        offset := offset + defs[i].len;
      }
      assert defs[..|defs|] == defs;
      assert cols == Layout(name, defs);
      files := files[name := offset];
      tabs := tabs[name := TabMeta(name, cols, [])];
      fhs := fhs + {name};
      assert files.Keys == old(files.Keys) + {name};
      assert tabs.Keys == old(tabs.Keys) + {name};
      return Ok(());
    }

    /**
     * drop_table: TableNotFoundError for an unknown name; otherwise its
     * record file is closed and destroyed and the table forgotten. (The
     * table's index files are left as they are.)
     */
    method DropTable(name: string) returns (r: Result<(), DbError>)
      requires Valid()
      modifies this`tabs, this`files, this`fhs
      ensures Valid()
      ensures name !in old(tabs) ==> r == Err(TableNotFound) && tabs == old(tabs) && files == old(files)
      ensures name in old(tabs) ==> r == Ok(()) && tabs == old(tabs) - {name} && files == old(files) - {name}
    {
      if name !in tabs {
        return Err(TableNotFound);
      }
      files := files - {name};
      tabs := tabs - {name};
      fhs := fhs - {name};
      return Ok(());
    }

    /**
     * create_index: TableNotFoundError for an unknown table,
     * IndexExistsError when the index file exists, ColumnNotFoundError for
     * an unknown column; otherwise the index file is created and the table
     * gains an index over the named columns, in order, with col_num their
     * number and col_tot_len the sum of their lengths. The handle is opened
     * by the caller; the columns' index flags are left false.
     */
    method CreateIndex(tab: string, names: seq<string>) returns (r: Result<(), DbError>)
      requires Valid()
      modifies this`tabs, this`ixFiles
      ensures Valid()
      ensures tab !in old(tabs) ==> r == Err(TableNotFound)
      ensures tab in old(tabs) && IndexId(tab, names) in old(ixFiles) ==> r == Err(IndexExists)
      ensures r.Err? ==> tabs == old(tabs) && ixFiles == old(ixFiles)
      ensures r.Ok? <==>
        && tab in old(tabs) && IndexId(tab, names) !in old(ixFiles)
        && forall i :: 0 <= i < |names| ==> FindCol(old(tabs)[tab].cols, names[i]).Ok?
      ensures r.Ok? ==>
        && ixFiles == old(ixFiles) + {IndexId(tab, names)}
        && tabs == old(tabs)[tab := old(tabs)[tab].(indexes := old(tabs)[tab].indexes + [IndexOver(tab, old(tabs)[tab].cols, names)])]
    {
      if tab !in tabs {
        return Err(TableNotFound);
      }
      if IndexId(tab, names) in ixFiles {
        return Err(IndexExists);
      }
      var meta := tabs[tab];
      var found := IndexColumns(meta.cols, names);
      if found.Err? {
        return Err(ColumnNotFound);
      }
      var (cols, colTotLen) := found.value;
      ixFiles := ixFiles + {IndexId(tab, names)};
      tabs := tabs[tab := meta.(indexes := meta.indexes + [IndexMeta(tab, colTotLen, |names|, cols)])];
      return Ok(());
    }

    /**
     * drop_index (by column names): TableNotFoundError or
     * IndexNotFoundError (no index file); otherwise the handle is closed,
     * the file destroyed and the index's metadata removed from the table.
     * The handle must be open (ihs_.at).
     */
    method DropIndex(tab: string, names: seq<string>) returns (r: Result<(), DbError>)
      requires Valid()
      requires tab in tabs && IndexId(tab, names) in ixFiles ==> IndexId(tab, names) in ihs
      modifies this`tabs, this`ixFiles, this`ihs
      ensures Valid()
      ensures tab !in old(tabs) ==> r == Err(TableNotFound)
      ensures tab in old(tabs) && IndexId(tab, names) !in old(ixFiles) ==> r == Err(IndexNotFound)
      ensures tab !in old(tabs) || IndexId(tab, names) !in old(ixFiles) ==>
        tabs == old(tabs) && ixFiles == old(ixFiles) && ihs == old(ihs)
      ensures tab in old(tabs) && IndexId(tab, names) in old(ixFiles) ==>
        && ixFiles == old(ixFiles) - {IndexId(tab, names)} && ihs == old(ihs) - {IndexId(tab, names)}
        && r == (if FindIndex(old(tabs)[tab].indexes, names).Ok? then Ok(()) else Err(IndexNotFound))
        && (r.Ok? ==> tabs == old(tabs)[tab := old(tabs)[tab].(indexes := Without(old(tabs)[tab].indexes, FindIndex(old(tabs)[tab].indexes, names).value))])
        && (r.Err? ==> tabs == old(tabs))
      ensures r.Ok? ==> |tabs[tab].indexes| == |old(tabs)[tab].indexes| - 1
    {
      if tab !in tabs {
        return Err(TableNotFound);
      }
      if IndexId(tab, names) !in ixFiles {
        return Err(IndexNotFound);
      }
      ihs := ihs - {IndexId(tab, names)};
      ixFiles := ixFiles - {IndexId(tab, names)};
      var meta := tabs[tab];
      var k := FindIndex(meta.indexes, names);
      if k.Err? {
        return Err(IndexNotFound);
      }
      tabs := tabs[tab := meta.(indexes := Without(meta.indexes, k.value))];
      return Ok(());
    }

    /**
     * show_index: when output is disabled it returns at once, for any table
     * name. Otherwise TableNotFoundError for an unknown table (db_.get_table),
     * and for a known one a line per index is appended to the output file
     * (see IndexListing). Every index of the table has a column.
     */
    method ShowIndex(tab: string) returns (r: Result<(), DbError>)
      requires tab in tabs ==> forall i :: 0 <= i < |tabs[tab].indexes| ==> |tabs[tab].indexes[i].cols| > 0
      requires tab in tabs ==> forall i :: 0 <= i < |tabs[tab].indexes| ==> tabs[tab].indexes[i].colNum == |tabs[tab].indexes[i].cols|
      modifies this`output
      ensures !enableOutput ==> r == Ok(()) && output == old(output)
      ensures enableOutput ==> (r == Err(TableNotFound) <==> tab !in tabs)
      ensures r.Err? ==> output == old(output)
      ensures r.Ok? ==> output == old(output) + (if enableOutput then IndexListing(tab, tabs[tab].indexes) else "")
    {
      if !enableOutput {
        return Ok(());
      }
      if tab !in tabs {
        return Err(TableNotFound);
      }
      var ss := "";
      var indexes := tabs[tab].indexes;
      for k := 0 to |indexes|
        invariant ss == IndexListing(tab, indexes[..k])
        invariant output == old(output)
      {
        var line := IndexLineOf(tab, indexes[k]);
        assert indexes[..k + 1][..k] == indexes[..k];
        ss := ss + line;
      }
      assert indexes[..|indexes|] == indexes;
      output := output + ss;
      return Ok(());
    }

    /** One index's line of show index, its column names written out one by one. */
    method IndexLineOf(tab: string, entry: IndexMeta) returns (line: string)
      requires |entry.cols| > 0 && entry.colNum == |entry.cols|
      ensures line == IndexLine(tab, entry)
    {
      var names := ColNames(entry.cols);
      line := "| " + tab + " | unique | (";
      var i := 0;
      while i < entry.colNum - 1
        invariant 0 <= i <= entry.colNum - 1
        invariant line == "| " + tab + " | unique | (" + Commas(names[..i])
      {
        assert names[..i + 1] == names[..i] + [names[i]];
        CommasAppend(names[..i], names[i]);
        line := line + entry.cols[i].name + ",";
        i := i + 1;
      }
      CommasThenLast(names);
      line := line + entry.cols[|entry.cols| - 1].name + ") |\n";
    }

    /**
     * desc_table: TableNotFoundError for an unknown table; otherwise one row
     * per column, in order: its name, its type's name and YES or NO for its
     * index flag.
     */
    method DescTable(tab: string) returns (r: Result<seq<seq<string>>, DbError>)
      ensures tab !in tabs <==> r == Err(TableNotFound)
      ensures r.Ok? ==> |r.value| == |tabs[tab].cols| && forall i :: 0 <= i < |r.value| ==>
        r.value[i] == [tabs[tab].cols[i].name, TypeName(tabs[tab].cols[i].colType), if tabs[tab].cols[i].index then "YES" else "NO"]
    {
      if tab !in tabs {
        return Err(TableNotFound);
      }
      var rows: seq<seq<string>> := [];
      var cols := tabs[tab].cols;
      for i := 0 to |cols|
        invariant |rows| == i
        invariant forall k :: 0 <= k < i ==> rows[k] == [cols[k].name, TypeName(cols[k].colType), if cols[k].index then "YES" else "NO"]
      {
        rows := rows + [[cols[i].name, TypeName(cols[i].colType), if cols[i].index then "YES" else "NO"]];
      }
      return Ok(rows);
    }
  }

  /** The columns an index over the named columns holds, each found by name. */
  function IndexCols(cols: seq<ColMeta>, names: seq<string>): (r: seq<ColMeta>)
    requires forall i :: 0 <= i < |names| ==> FindCol(cols, names[i]).Ok?
    ensures |r| == |names| && forall i :: 0 <= i < |names| ==> r[i].name == names[i]
  {
    seq(|names|, i requires 0 <= i < |names| => FindCol(cols, names[i]).value)
  }

  /**
   * create_index's loop over the column names: each is looked up in the
   * table's columns (ColumnNotFoundError at the first unknown one), and the
   * columns found are gathered in order with their total length.
   */
  method IndexColumns(cols: seq<ColMeta>, names: seq<string>) returns (r: Result<(seq<ColMeta>, nat), DbError>)
    ensures r.Ok? <==> forall i :: 0 <= i < |names| ==> FindCol(cols, names[i]).Ok?
    ensures r.Err? ==> r.error == ColumnNotFound
    ensures r.Ok? ==> r.value.0 == IndexCols(cols, names) && r.value.1 == TotLen(r.value.0)
  {
    var found: seq<ColMeta> := [];
    var totLen := 0;
    for i := 0 to |names|
      invariant |found| == i && totLen == TotLen(found) && Gathered(cols, names, found)
    {
      var c := FindCol(cols, names[i]);
      if c.Err? {
        return Err(ColumnNotFound);
      }
      GatheredStep(cols, names, found, c.value);
      totLen := totLen + c.value.len;
      found := found + [c.value];
    }
    assert found == IndexCols(cols, names);
    return Ok((found, totLen));
  }

  /** The first |found| names, looked up in turn, give found. */
  predicate Gathered(cols: seq<ColMeta>, names: seq<string>, found: seq<ColMeta>)
  {
    |found| <= |names| && forall k :: 0 <= k < |found| ==> FindCol(cols, names[k]) == Ok(found[k])
  }

  lemma GatheredStep(cols: seq<ColMeta>, names: seq<string>, found: seq<ColMeta>, c: ColMeta)
    requires Gathered(cols, names, found) && |found| < |names| && FindCol(cols, names[|found|]) == Ok(c)
    ensures Gathered(cols, names, found + [c]) && TotLen(found + [c]) == TotLen(found) + c.len
  {
    assert (found + [c])[..|found|] == found;
  }

  /** The metadata create_index builds: the columns in order, their number and their total length. */
  function IndexOver(tab: string, cols: seq<ColMeta>, names: seq<string>): (m: IndexMeta)
    requires forall i :: 0 <= i < |names| ==> FindCol(cols, names[i]).Ok?
    ensures ColNames(m.cols) == names && m.colNum == |names| && m.colTotLen == Tables.KeyLen(Spans(m.cols))
  {
    var ics := IndexCols(cols, names);
    TotLenIsKeyLen(ics);
    IndexMeta(tab, TotLen(ics), |names|, ics)
  }

  /** A sequence without its element at k. */
  function Without<T>(s: seq<T>, k: nat): (r: seq<T>)
    requires k < |s|
    ensures |r| == |s| - 1
    ensures forall i :: 0 <= i < k ==> r[i] == s[i]
    ensures forall i :: k <= i < |r| ==> r[i] == s[i + 1]
  {
    s[..k] + s[k + 1..]
  }

  /** Each name followed by a comma. */
  function Commas(names: seq<string>): string
  {
    if names == [] then "" else Commas(names[..|names| - 1]) + names[|names| - 1] + ","
  }

  lemma CommasAppend(names: seq<string>, n: string)
    ensures Commas(names + [n]) == Commas(names) + n + ","
  {
    assert (names + [n])[..|names|] == names;
  }

  /** All names but the last followed by commas, then the last: the names joined by commas. */
  lemma {:induction false} CommasThenLast(names: seq<string>)
    requires |names| > 0
    ensures Commas(names[..|names| - 1]) + names[|names| - 1] == Join(",", names)
    decreases |names|
  {
    var n := |names| - 1;
    if n > 0 {
      CommasThenLast(names[..n]);
      assert names[..n][..n - 1] == names[..n - 1];
      JoinAppend(",", names[..n], names[n]);
      assert names[..n] + [names[n]] == names;
    }
  }
}
