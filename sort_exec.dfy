// ORDER BY (src/execution/execution_sort.h): the comparator over the sort
// columns and the sort executor that collects its child's records, sorts
// them and hands them out in order. The child is given as the records it
// yields. std::sort is modelled by an insertion sort with the guarantee
// std::sort gives: the result is a permutation of the input in which no
// record compares less than one before it. Only INT and STRING sort columns
// are part of this model: the comparator asserts on BIGINT and DATETIME,
// and FLOAT is left out.
module SortExec {
  import opened Wrappers
  import opened Values
  import opened Catalog
  import opened ExecManager

  /** Every sort column lies in the record, and is INT or STRING. */
  predicate Sortable(sortCols: seq<ColMeta>, t: seq<byte>)
  {
    forall j :: 0 <= j < |sortCols| ==>
      Fits(sortCols[j], t) && (sortCols[j].colType == TypeInt || sortCols[j].colType == TypeString)
  }

  /** The comparator's columns and directions, one direction per column at least. */
  predicate Comparable(sortCols: seq<ColMeta>, desc: seq<bool>, t1: seq<byte>, t2: seq<byte>)
  {
    0 < |sortCols| <= |desc| && Sortable(sortCols, t1) && Sortable(sortCols, t2)
  }

  /** Two records agree on column c: the same int, or the same bytes. */
  predicate SameOn(c: ColMeta, t1: seq<byte>, t2: seq<byte>)
    requires Fits(c, t1) && Fits(c, t2)
  {
    if c.colType == TypeInt then ReadInt32(FieldOf(c, t1)) == ReadInt32(FieldOf(c, t2))
    else FieldOf(c, t1) == FieldOf(c, t2)
  }

  /** Column c orders t1 strictly before t2 in ascending order. */
  predicate AscLess(c: ColMeta, t1: seq<byte>, t2: seq<byte>)
    requires Fits(c, t1) && Fits(c, t2)
  {
    if c.colType == TypeInt then ReadInt32(FieldOf(c, t1)) < ReadInt32(FieldOf(c, t2))
    else LexLess(FieldOf(c, t1), FieldOf(c, t2))
  }

  /**
   * CompareObj::nextComp from column idx on: equal values pass to the next
   * column, and equal on the last column is false; otherwise ascending is
   * val1 < val2 and descending val1 >= val2.
   */
  predicate NextComp(sortCols: seq<ColMeta>, desc: seq<bool>, t1: seq<byte>, t2: seq<byte>, idx: nat)
    requires Comparable(sortCols, desc, t1, t2) && idx < |sortCols|
    decreases |sortCols| - idx
  {
    var c := sortCols[idx];
    if c.colType == TypeInt then
      var v1, v2 := ReadInt32(FieldOf(c, t1)), ReadInt32(FieldOf(c, t2));
      if v1 == v2 then idx < |sortCols| - 1 && NextComp(sortCols, desc, t1, t2, idx + 1)
      else if desc[idx] then v1 >= v2 else v1 < v2
    else
      var s1, s2 := FieldOf(c, t1), FieldOf(c, t2);
      if s1 == s2 then idx < |sortCols| - 1 && NextComp(sortCols, desc, t1, t2, idx + 1)
      else if desc[idx] then !LexLess(s1, s2) else LexLess(s1, s2)
  }

  /** CompareObj::operator(): whether t1 goes before t2. */
  predicate Less(sortCols: seq<ColMeta>, desc: seq<bool>, t1: seq<byte>, t2: seq<byte>)
    requires Comparable(sortCols, desc, t1, t2)
  {
    NextComp(sortCols, desc, t1, t2, 0)
  }

  /** The records agree on every sort column from idx on. */
  predicate SameFrom(sortCols: seq<ColMeta>, t1: seq<byte>, t2: seq<byte>, idx: nat)
    requires Sortable(sortCols, t1) && Sortable(sortCols, t2)
  {
    forall j :: idx <= j < |sortCols| ==> SameOn(sortCols[j], t1, t2)
  }

  /** On a column where the records differ, the comparator follows the column's direction. */
  lemma DirectedColumn(sortCols: seq<ColMeta>, desc: seq<bool>, t1: seq<byte>, t2: seq<byte>, idx: nat)
    requires Comparable(sortCols, desc, t1, t2) && idx < |sortCols|
    requires !SameOn(sortCols[idx], t1, t2)
    ensures NextComp(sortCols, desc, t1, t2, idx) ==
      if desc[idx] then AscLess(sortCols[idx], t2, t1) else AscLess(sortCols[idx], t1, t2)
  {
    var c := sortCols[idx];
    if c.colType == TypeString {
      var s1, s2 := FieldOf(c, t1), FieldOf(c, t2);
      LexLessTotal(s1, s2);
      if LexLess(s1, s2) && LexLess(s2, s1) {
        LexLessTransitive(s1, s2, s1);
        LexLessIrreflexive(s1);
      }
    }
  }

  /** Nothing goes before itself. */
  lemma {:induction false} NextCompIrreflexive(sortCols: seq<ColMeta>, desc: seq<bool>, t: seq<byte>, idx: nat)
    requires Comparable(sortCols, desc, t, t) && idx < |sortCols|
    ensures !NextComp(sortCols, desc, t, t, idx)
    decreases |sortCols| - idx
  {
    if idx < |sortCols| - 1 {
      NextCompIrreflexive(sortCols, desc, t, idx + 1);
    }
  }

  /** A record agreeing with another on every sort column compares like it. */
  lemma {:induction false} SameCompares(sortCols: seq<ColMeta>, desc: seq<bool>, a: seq<byte>, b: seq<byte>, c: seq<byte>, idx: nat)
    requires Comparable(sortCols, desc, a, c) && Sortable(sortCols, b) && idx < |sortCols|
    requires SameFrom(sortCols, a, b, idx)
    ensures NextComp(sortCols, desc, a, c, idx) == NextComp(sortCols, desc, b, c, idx)
    ensures NextComp(sortCols, desc, c, a, idx) == NextComp(sortCols, desc, c, b, idx)
    decreases |sortCols| - idx
  {
    assert SameOn(sortCols[idx], a, b);
    if idx < |sortCols| - 1 {
      SameCompares(sortCols, desc, a, b, c, idx + 1);
    }
  }

  /** The comparator is transitive. */
  lemma {:induction false} NextCompTransitive(sortCols: seq<ColMeta>, desc: seq<bool>, a: seq<byte>, b: seq<byte>, c: seq<byte>, idx: nat)
    requires Comparable(sortCols, desc, a, b) && Sortable(sortCols, c) && idx < |sortCols|
    requires NextComp(sortCols, desc, a, b, idx) && NextComp(sortCols, desc, b, c, idx)
    ensures NextComp(sortCols, desc, a, c, idx)
    decreases |sortCols| - idx
  {
    var col := sortCols[idx];
    var ab, bc, ac := SameOn(col, a, b), SameOn(col, b, c), SameOn(col, a, c);
    if ab && bc {
      NextCompTransitive(sortCols, desc, a, b, c, idx + 1);
    } else if ab {
      DirectedColumn(sortCols, desc, b, c, idx);
      DirectedColumn(sortCols, desc, a, c, idx);
    } else if bc {
      DirectedColumn(sortCols, desc, a, b, idx);
      DirectedColumn(sortCols, desc, a, c, idx);
    } else {
      DirectedColumn(sortCols, desc, a, b, idx);
      DirectedColumn(sortCols, desc, b, c, idx);
      AscOrder(col, a, b, c);
      AscOrder(col, c, b, a);
      if !ac {
        DirectedColumn(sortCols, desc, a, c, idx);
      } else {
        AscOrder(col, a, b, a);
      }
    }
  }

  /** The ascending column order is a strict order. */
  lemma AscOrder(col: ColMeta, a: seq<byte>, b: seq<byte>, c: seq<byte>)
    requires Fits(col, a) && Fits(col, b) && Fits(col, c)
    requires col.colType == TypeInt || col.colType == TypeString
    ensures !AscLess(col, a, a)
    ensures AscLess(col, a, b) && AscLess(col, b, c) ==> AscLess(col, a, c)
    ensures SameOn(col, a, b) ==> !AscLess(col, a, b) && !AscLess(col, b, a)
    ensures SameOn(col, a, b) && SameOn(col, b, c) ==> SameOn(col, a, c)
    ensures AscLess(col, a, b) && SameOn(col, b, c) ==> AscLess(col, a, c)
    ensures SameOn(col, a, b) && AscLess(col, b, c) ==> AscLess(col, a, c)
  {
    if col.colType == TypeString {
      var x, y, z := FieldOf(col, a), FieldOf(col, b), FieldOf(col, c);
      LexLessIrreflexive(x);
      if LexLess(x, y) && LexLess(y, z) {
        LexLessTransitive(x, y, z);
      }
    }
  }

  /**
   * Any two records are ordered one way or agree on every sort column from
   * idx on, and records that agree on them are ordered neither way: the
   * records the comparator cannot tell apart are exactly those with equal
   * sort keys.
   */
  lemma {:induction false} NextCompTotal(sortCols: seq<ColMeta>, desc: seq<bool>, a: seq<byte>, b: seq<byte>, idx: nat)
    requires Comparable(sortCols, desc, a, b) && idx < |sortCols|
    ensures !NextComp(sortCols, desc, a, b, idx) && !NextComp(sortCols, desc, b, a, idx) <==> SameFrom(sortCols, a, b, idx)
    decreases |sortCols| - idx
  {
    var col := sortCols[idx];
    AscOrder(col, a, b, a);
    AscOrder(col, b, a, b);
    if SameOn(col, a, b) {
      if idx < |sortCols| - 1 {
        NextCompTotal(sortCols, desc, a, b, idx + 1);
        assert SameFrom(sortCols, a, b, idx) <==> SameFrom(sortCols, a, b, idx + 1);
      }
    } else {
      DirectedColumn(sortCols, desc, a, b, idx);
      DirectedColumn(sortCols, desc, b, a, idx);
      if col.colType == TypeInt {
      } else {
        LexLessTotal(FieldOf(col, a), FieldOf(col, b));
      }
      assert !SameFrom(sortCols, a, b, idx);
    }
  }

  /** CompareObj is a strict weak order, as std::sort requires of its comparator. */
  lemma StrictWeakOrder(sortCols: seq<ColMeta>, desc: seq<bool>, a: seq<byte>, b: seq<byte>, c: seq<byte>)
    requires Comparable(sortCols, desc, a, b) && Sortable(sortCols, c)
    ensures !Less(sortCols, desc, a, a)
    ensures Less(sortCols, desc, a, b) && Less(sortCols, desc, b, c) ==> Less(sortCols, desc, a, c)
    ensures !Less(sortCols, desc, a, b) && !Less(sortCols, desc, b, a) <==> SameFrom(sortCols, a, b, 0)
  {
    NextCompIrreflexive(sortCols, desc, a, 0);
    if Less(sortCols, desc, a, b) && Less(sortCols, desc, b, c) {
      NextCompTransitive(sortCols, desc, a, b, c, 0);
    }
    NextCompTotal(sortCols, desc, a, b, 0);
  }

  // ---------------------------------------------------------------------
  // Sorting.

  /** Every record has the sort columns. */
  predicate AllSortable(sortCols: seq<ColMeta>, ts: seq<seq<byte>>)
  {
    forall i :: 0 <= i < |ts| ==> Sortable(sortCols, ts[i])
  }

  /** No record compares less than one before it (the order std::sort leaves). */
  predicate Sorted(sortCols: seq<ColMeta>, desc: seq<bool>, ts: seq<seq<byte>>)
    requires 0 < |sortCols| <= |desc| && AllSortable(sortCols, ts)
  {
    forall i, j :: 0 <= i < j < |ts| ==> !Less(sortCols, desc, ts[j], ts[i])
  }

  /** t inserted before the first record it goes before. */
  function Insert(sortCols: seq<ColMeta>, desc: seq<bool>, t: seq<byte>, ts: seq<seq<byte>>): (r: seq<seq<byte>>)
    requires 0 < |sortCols| <= |desc| && Sortable(sortCols, t) && AllSortable(sortCols, ts)
    ensures |r| == |ts| + 1 && AllSortable(sortCols, r)
  {
    if ts == [] then [t]
    else if Less(sortCols, desc, t, ts[0]) then
      var r := [t] + ts;
      assert forall i :: 0 < i < |r| ==> r[i] == ts[i - 1];
      r
    else
      var rest := ts[1..];
      assert forall i :: 0 <= i < |rest| ==> rest[i] == ts[i + 1];
      var r := [ts[0]] + Insert(sortCols, desc, t, rest);
      assert forall i :: 0 < i < |r| ==> r[i] == Insert(sortCols, desc, t, rest)[i - 1];
      r
  }

  /** The records sorted by the comparator (an insertion sort). */
  function Sort(sortCols: seq<ColMeta>, desc: seq<bool>, ts: seq<seq<byte>>): (r: seq<seq<byte>>)
    requires 0 < |sortCols| <= |desc| && AllSortable(sortCols, ts)
    ensures |r| == |ts| && AllSortable(sortCols, r)
  {
    if ts == [] then []
    else
      var pre := ts[..|ts| - 1];
      assert forall i :: 0 <= i < |pre| ==> pre[i] == ts[i];
      Insert(sortCols, desc, ts[|ts| - 1], Sort(sortCols, desc, pre))
  }

  /** Inserting adds exactly the one record. */
  lemma {:induction false} InsertPermutes(sortCols: seq<ColMeta>, desc: seq<bool>, t: seq<byte>, ts: seq<seq<byte>>)
    requires 0 < |sortCols| <= |desc| && Sortable(sortCols, t) && AllSortable(sortCols, ts)
    ensures multiset(Insert(sortCols, desc, t, ts)) == multiset(ts) + multiset{t}
    decreases |ts|
  {
    if ts != [] && !Less(sortCols, desc, t, ts[0]) {
      var rest := ts[1..];
      assert forall i :: 0 <= i < |rest| ==> rest[i] == ts[i + 1];
      InsertPermutes(sortCols, desc, t, rest);
      assert ts == [ts[0]] + rest;
    }
  }

  /** The sort keeps the records: the result is a permutation of the input. */
  lemma {:induction false} SortPermutes(sortCols: seq<ColMeta>, desc: seq<bool>, ts: seq<seq<byte>>)
    requires 0 < |sortCols| <= |desc| && AllSortable(sortCols, ts)
    ensures multiset(Sort(sortCols, desc, ts)) == multiset(ts)
    decreases |ts|
  {
    if ts != [] {
      var pre := ts[..|ts| - 1];
      SortablePrefix(sortCols, ts, |ts| - 1);
      SortPermutes(sortCols, desc, pre);
      InsertPermutes(sortCols, desc, ts[|ts| - 1], Sort(sortCols, desc, pre));
      assert ts == pre + [ts[|ts| - 1]];
    }
  }

  lemma {:induction false} InsertSorted(sortCols: seq<ColMeta>, desc: seq<bool>, t: seq<byte>, ts: seq<seq<byte>>)
    requires 0 < |sortCols| <= |desc| && Sortable(sortCols, t) && AllSortable(sortCols, ts)
    requires Sorted(sortCols, desc, ts)
    ensures Sorted(sortCols, desc, Insert(sortCols, desc, t, ts))
    decreases |ts|
  {
    if ts == [] {
    } else if Less(sortCols, desc, t, ts[0]) {
      InsertFront(sortCols, desc, t, ts);
    } else {
      var rest := ts[1..];
      SortedHead(sortCols, desc, ts);
      InsertSorted(sortCols, desc, t, rest);
      InsertBehind(sortCols, desc, t, ts);
    }
  }

  /** A record that goes before the first one goes first. */
  lemma InsertFront(sortCols: seq<ColMeta>, desc: seq<bool>, t: seq<byte>, ts: seq<seq<byte>>)
    requires 0 < |sortCols| <= |desc| && Sortable(sortCols, t) && AllSortable(sortCols, ts)
    requires Sorted(sortCols, desc, ts) && ts != [] && Less(sortCols, desc, t, ts[0])
    ensures Sorted(sortCols, desc, [t] + ts)
  {
    var r := [t] + ts;
    forall i, j | 0 <= i < j < |r| ensures !Less(sortCols, desc, r[j], r[i]) {
      if i == 0 {
        assert r[j] == ts[j - 1];
        StrictWeakOrder(sortCols, desc, r[j], t, ts[0]);
        if j > 1 {
          assert !Less(sortCols, desc, ts[j - 1], ts[0]);
        } else {
          StrictWeakOrder(sortCols, desc, t, ts[0], t);
        }
      } else {
        assert r[i] == ts[i - 1] && r[j] == ts[j - 1];
      }
    }
  }

  /** A record that does not go before the first one is inserted behind it. */
  lemma InsertBehind(sortCols: seq<ColMeta>, desc: seq<bool>, t: seq<byte>, ts: seq<seq<byte>>)
    requires 0 < |sortCols| <= |desc| && Sortable(sortCols, t) && AllSortable(sortCols, ts)
    requires Sorted(sortCols, desc, ts) && ts != [] && !Less(sortCols, desc, t, ts[0])
    requires Sorted(sortCols, desc, Insert(sortCols, desc, t, ts[1..]))
    ensures Sorted(sortCols, desc, [ts[0]] + Insert(sortCols, desc, t, ts[1..]))
  {
    var first, rest := ts[0], ts[1..];
    SortedHead(sortCols, desc, ts);
    InsertNoneBefore(sortCols, desc, first, t, rest);
    SortedCons(sortCols, desc, first, Insert(sortCols, desc, t, rest));
  }

  lemma SortablePrefix(sortCols: seq<ColMeta>, ts: seq<seq<byte>>, n: nat)
    requires AllSortable(sortCols, ts) && n <= |ts|
    ensures AllSortable(sortCols, ts[..n])
  {
    forall i | 0 <= i < n ensures Sortable(sortCols, ts[..n][i]) {
      assert ts[..n][i] == ts[i];
    }
  }

  /** The records after the first of a sorted sequence are sorted, and none goes before the first. */
  lemma SortedHead(sortCols: seq<ColMeta>, desc: seq<bool>, ts: seq<seq<byte>>)
    requires 0 < |sortCols| <= |desc| && AllSortable(sortCols, ts) && Sorted(sortCols, desc, ts) && ts != []
    ensures AllSortable(sortCols, ts[1..]) && Sortable(sortCols, ts[0])
    ensures NoneBefore(sortCols, desc, ts[0], ts[1..]) && Sorted(sortCols, desc, ts[1..])
  {
    var rest := ts[1..];
    forall k | 0 <= k < |rest| ensures rest[k] == ts[k + 1] && Sortable(sortCols, rest[k]) {
    }
    forall k | 0 <= k < |rest| ensures !Less(sortCols, desc, rest[k], ts[0]) {
      assert rest[k] == ts[k + 1];
    }
    forall i, j | 0 <= i < j < |rest| ensures !Less(sortCols, desc, rest[j], rest[i]) {
      assert rest[i] == ts[i + 1] && rest[j] == ts[j + 1];
    }
  }

  /** A record none of a sorted sequence goes before, put in front, keeps it sorted. */
  lemma SortedCons(sortCols: seq<ColMeta>, desc: seq<bool>, first: seq<byte>, tail: seq<seq<byte>>)
    requires 0 < |sortCols| <= |desc| && Sortable(sortCols, first) && AllSortable(sortCols, tail)
    requires Sorted(sortCols, desc, tail) && NoneBefore(sortCols, desc, first, tail)
    ensures AllSortable(sortCols, [first] + tail) && Sorted(sortCols, desc, [first] + tail)
  {
    var r := [first] + tail;
    forall i | 0 <= i < |r| ensures Sortable(sortCols, r[i]) {
      if i > 0 {
        assert r[i] == tail[i - 1];
      }
    }
    forall i, j | 0 <= i < j < |r| ensures !Less(sortCols, desc, r[j], r[i]) {
      assert r[j] == tail[j - 1];
      if i > 0 {
        assert r[i] == tail[i - 1];
      }
    }
  }

  /** No record of ts goes before first. */
  predicate NoneBefore(sortCols: seq<ColMeta>, desc: seq<bool>, first: seq<byte>, ts: seq<seq<byte>>)
    requires 0 < |sortCols| <= |desc| && Sortable(sortCols, first) && AllSortable(sortCols, ts)
  {
    forall k :: 0 <= k < |ts| ==> !Less(sortCols, desc, ts[k], first)
  }

  lemma {:induction false} InsertNoneBefore(sortCols: seq<ColMeta>, desc: seq<bool>, first: seq<byte>, t: seq<byte>, ts: seq<seq<byte>>)
    requires 0 < |sortCols| <= |desc| && Sortable(sortCols, first) && Sortable(sortCols, t) && AllSortable(sortCols, ts)
    requires NoneBefore(sortCols, desc, first, ts) && !Less(sortCols, desc, t, first)
    ensures NoneBefore(sortCols, desc, first, Insert(sortCols, desc, t, ts))
    decreases |ts|
  {
    if ts != [] && !Less(sortCols, desc, t, ts[0]) {
      var rest := ts[1..];
      assert NoneBefore(sortCols, desc, first, rest) by {
        forall k | 0 <= k < |rest| ensures !Less(sortCols, desc, rest[k], first) {
          assert rest[k] == ts[k + 1];
        }
      }
      InsertNoneBefore(sortCols, desc, first, t, rest);
      var r := Insert(sortCols, desc, t, ts);
      var tail := Insert(sortCols, desc, t, rest);
      assert r == [ts[0]] + tail;
      forall k | 0 <= k < |r| ensures !Less(sortCols, desc, r[k], first) {
        if k > 0 {
          assert r[k] == tail[k - 1];
        }
      }
    } else if ts != [] {
      var r := Insert(sortCols, desc, t, ts);
      assert r == [t] + ts;
      forall k | 0 <= k < |r| ensures !Less(sortCols, desc, r[k], first) {
        if k > 0 {
          assert r[k] == ts[k - 1];
        }
      }
    }
  }

  /** The sort leaves the records in comparator order. */
  lemma {:induction false} SortSorted(sortCols: seq<ColMeta>, desc: seq<bool>, ts: seq<seq<byte>>)
    requires 0 < |sortCols| <= |desc| && AllSortable(sortCols, ts)
    ensures Sorted(sortCols, desc, Sort(sortCols, desc, ts))
    decreases |ts|
  {
    if ts != [] {
      var pre := ts[..|ts| - 1];
      assert AllSortable(sortCols, pre) by {
        forall i | 0 <= i < |pre| ensures Sortable(sortCols, pre[i]) {
          assert pre[i] == ts[i];
        }
      }
      SortSorted(sortCols, desc, pre);
      InsertSorted(sortCols, desc, ts[|ts| - 1], Sort(sortCols, desc, pre));
    }
  }

  // ---------------------------------------------------------------------
  // The executor.

  /** The child's columns with the table and name of sel, in their order. */
  function Matching(sel: ColMeta, cols: seq<ColMeta>): (r: seq<ColMeta>)
    ensures forall c :: c in r <==> c in cols && c.tabName == sel.tabName && c.name == sel.name
  {
    if cols == [] then []
    else
      var rest := Matching(sel, cols[1..]);
      assert cols == [cols[0]] + cols[1..];
      if cols[0].tabName == sel.tabName && cols[0].name == sel.name then [cols[0]] + rest else rest
  }

  /** sort_cols: the matching child columns of each selected column, selected column by selected column. */
  function SortColsOf(selCols: seq<ColMeta>, cols: seq<ColMeta>): (r: seq<ColMeta>)
    ensures forall c :: c in r <==> c in cols && exists s :: s in selCols && c.tabName == s.tabName && c.name == s.name
  {
    if selCols == [] then []
    else
      var n := |selCols| - 1;
      var r := SortColsOf(selCols[..n], cols) + Matching(selCols[n], cols);
      assert forall s :: s in selCols <==> s in selCols[..n] || s == selCols[n] by {
        assert selCols == selCols[..n] + [selCols[n]];
      }
      r
  }

  class SortExecutor {
    /** cols_: the child's columns, which the executor outputs unchanged. */
    const cols: seq<ColMeta>
    const sortCols: seq<ColMeta>
    const isDesc: seq<bool>
    var tupleNum: nat
    var isEnd: bool
    var sortedTuples: seq<seq<byte>>
    var currIdx: nat

    /**
     * The collected records are sorted by the comparator, and tuple_num
     * counts them.
     */
    ghost predicate Valid()
      reads this
    {
      && 0 < |sortCols| <= |isDesc|
      && AllSortable(sortCols, sortedTuples)
      && tupleNum == |sortedTuples|
      && Sorted(sortCols, isDesc, sortedTuples)
    }

    /** The executor over a child with the given columns; nothing collected, at its end. */
    constructor(childCols: seq<ColMeta>, selCols: seq<ColMeta>, isDesc: seq<bool>)
      requires 0 < |SortColsOf(selCols, childCols)| <= |isDesc|
      ensures Valid() && cols == childCols && sortCols == SortColsOf(selCols, childCols) && this.isDesc == isDesc
      ensures sortedTuples == [] && isEnd && currIdx == 0
    {
      var sc := FindSortCols(selCols, childCols);
      cols := childCols;
      sortCols := sc;
      this.isDesc := isDesc;
      tupleNum := 0;
      isEnd := true;
      sortedTuples := [];
      currIdx := 0;
    }

    /**
     * beginTuple: the child's records are added to the collected ones and
     * all of them sorted; isend is cleared when there are any (and left as
     * it was otherwise). The cursor is not moved.
     */
    method BeginTuple(child: seq<seq<byte>>)
      requires Valid() && AllSortable(sortCols, child)
      modifies this`sortedTuples, this`tupleNum, this`isEnd
      ensures Valid()
      ensures multiset(sortedTuples) == multiset(old(sortedTuples) + child)
      ensures isEnd == (old(isEnd) && tupleNum == 0)
    {
      var all := sortedTuples;
      for i := 0 to |child|
        invariant all == old(sortedTuples) + child[..i]
        invariant AllSortable(sortCols, all)
      {
        assert child[..i + 1] == child[..i] + [child[i]];
        all := all + [child[i]];
      }
      assert child[..|child|] == child;
      tupleNum := |all|;
      if tupleNum != 0 {
        isEnd := false;
      }
      SortSorted(sortCols, isDesc, all);
      SortPermutes(sortCols, isDesc, all);
      sortedTuples := Sort(sortCols, isDesc, all);
    }

    /** nextTuple: the cursor moves on, and isend is set once it reaches tuple_num. */
    method NextTuple()
      modifies this`currIdx, this`isEnd
      ensures currIdx == old(currIdx) + 1
      ensures isEnd == (old(isEnd) || currIdx >= tupleNum)
    {
      currIdx := currIdx + 1;
      if currIdx >= tupleNum {
        isEnd := true;
      }
    }

    /** Next: a copy of the record under the cursor. */
    method Next() returns (t: seq<byte>)
      requires currIdx < |sortedTuples|
      ensures t == sortedTuples[currIdx]
    {
      t := sortedTuples[currIdx];
    }
  }

  /** The constructor's scan: for each selected column, every child column with its table and name. */
  method FindSortCols(selCols: seq<ColMeta>, childCols: seq<ColMeta>) returns (sc: seq<ColMeta>)
    ensures sc == SortColsOf(selCols, childCols)
  {
    sc := [];
    for k := 0 to |selCols|
      invariant sc == SortColsOf(selCols[..k], childCols)
    {
      var found := FindMatching(selCols[k], childCols);
      assert selCols[..k + 1][..k] == selCols[..k];
      sc := sc + found;
    }
    assert selCols[..|selCols|] == selCols;
  }

  /** The child columns with sel's table and name, in their order. */
  method FindMatching(sel: ColMeta, childCols: seq<ColMeta>) returns (found: seq<ColMeta>)
    ensures found == Matching(sel, childCols)
  {
    found := [];
    for i := 0 to |childCols|
      invariant found == MatchingAmong(sel, childCols, i)
    {
      if sel.tabName == childCols[i].tabName && sel.name == childCols[i].name {
        found := found + [childCols[i]];
      }
    }
    MatchingPrefix(sel, childCols);
  }

  /** The matching columns among the first i child columns. */
  function MatchingAmong(sel: ColMeta, cols: seq<ColMeta>, i: nat): seq<ColMeta>
    requires i <= |cols|
  {
    if i == 0 then []
    else
      MatchingAmong(sel, cols, i - 1)
        + (if cols[i - 1].tabName == sel.tabName && cols[i - 1].name == sel.name then [cols[i - 1]] else [])
  }

  /** Scanning all child columns in order finds exactly Matching. */
  lemma MatchingPrefix(sel: ColMeta, cols: seq<ColMeta>)
    ensures MatchingAmong(sel, cols, |cols|) == Matching(sel, cols)
  {
    MatchingFrom(sel, cols, 0);
    assert cols[0..] == cols;
  }

  lemma {:induction false} MatchingFrom(sel: ColMeta, cols: seq<ColMeta>, k: nat)
    requires k <= |cols|
    ensures MatchingAmong(sel, cols, |cols|) == MatchingAmong(sel, cols, k) + Matching(sel, cols[k..])
    decreases |cols| - k
  {
    if k < |cols| {
      MatchingFrom(sel, cols, k + 1);
      assert cols[k..][1..] == cols[k + 1..];
    }
  }
}
