// Partition of src/execution/executor_hash_join.h: one child's tuples
// spread over PARTITION_NUM partitions by their partition code. Each
// partition keeps one page in memory; a tuple that finds its page full
// first has the page appended to the partition's spill file. The counters
// are tup_total_count (every tuple of the partition) and tup_count (the
// tuples on its page). The spill files are modelled as one sequence of
// tuples per partition.
module HashPartition {
  import opened Wrappers
  import opened Catalog
  import opened HashJoin
  import Disk

  /** Tuples the partitioning can read: an INT column inside, and record_len bytes each. */
  predicate Partitionable(col: ColMeta, recordLen: nat, recs: seq<seq<byte>>)
  {
    forall k :: 0 <= k < |recs| ==> Hashable(col, recs[k]) && |recs[k]| == recordLen
  }

  /** The tuples of recs whose partition code is c, in their order. */
  function OfCode(col: ColMeta, recs: seq<seq<byte>>, c: int): (r: seq<seq<byte>>)
    requires forall k :: 0 <= k < |recs| ==> Hashable(col, recs[k])
    ensures |r| <= |recs|
    decreases |recs|
  {
    if recs == [] then []
    else
      var n := |recs| - 1;
      var front := OfCode(col, recs[..n], c);
      if PartitionCode(col, recs[n]) == c then front + [recs[n]] else front
  }

  /** Putting one more tuple adds it at the end of its own partition and nowhere else. */
  lemma OfCodeAppend(col: ColMeta, recs: seq<seq<byte>>, t: seq<byte>, c: int)
    requires forall k :: 0 <= k < |recs| ==> Hashable(col, recs[k])
    requires Hashable(col, t)
    ensures OfCode(col, recs + [t], c) == OfCode(col, recs, c) + (if PartitionCode(col, t) == c then [t] else [])
  {
    assert (recs + [t])[..|recs|] == recs;
  }

  /** A partition holds exactly the tuples of its code: each tuple is in one partition, its own. */
  lemma {:induction false} OfCodeExactly(col: ColMeta, recs: seq<seq<byte>>, c: int)
    requires forall k :: 0 <= k < |recs| ==> Hashable(col, recs[k])
    ensures forall t :: t in OfCode(col, recs, c) <==> t in recs && PartitionCode(col, t) == c
    decreases |recs|
  {
    if recs != [] {
      var n := |recs| - 1;
      OfCodeExactly(col, recs[..n], c);
      assert recs == recs[..n] + [recs[n]];
    }
  }

  /**
   * Partition c: its page holds tup_count tuples, at most a page's worth;
   * tup_total_count counts the spilled ones too; spill file then page are
   * the tuples put of code c; and a partition that spilled has flushed at
   * least one full page and holds a tuple on its page since.
   */
  predicate PartAt(col: ColMeta, perPage: nat, put: seq<seq<byte>>, total: seq<int>, count: seq<int>,
                   pages: seq<seq<seq<byte>>>, spilled: seq<seq<seq<byte>>>, c: nat)
    requires forall k :: 0 <= k < |put| ==> Hashable(col, put[k])
    requires c < |total| && c < |count| && c < |pages| && c < |spilled|
  {
    && count[c] == |pages[c]| <= perPage
    && total[c] == |spilled[c]| + |pages[c]|
    && spilled[c] + pages[c] == OfCode(col, put, c)
    && (spilled[c] != [] ==> perPage <= |spilled[c]| && pages[c] != [])
  }

  /** The state of a Partition against the tuples put into it. */
  predicate Parts(col: ColMeta, recordLen: nat, perPage: nat, put: seq<seq<byte>>, total: seq<int>, count: seq<int>,
                  pages: seq<seq<seq<byte>>>, spilled: seq<seq<seq<byte>>>)
  {
    && 0 < perPage
    && |total| == PARTITION_NUM && |count| == PARTITION_NUM && |pages| == PARTITION_NUM && |spilled| == PARTITION_NUM
    && Partitionable(col, recordLen, put)
    && forall c :: 0 <= c < PARTITION_NUM ==> PartAt(col, perPage, put, total, count, pages, spilled, c)
  }

  /**
   * A partition spilled exactly when its total exceeds a page's worth of
   * tuples: the test get_partition uses to decide where to read it from.
   */
  lemma SpilledIffOver(col: ColMeta, recordLen: nat, perPage: nat, put: seq<seq<byte>>, total: seq<int>, count: seq<int>,
                       pages: seq<seq<seq<byte>>>, spilled: seq<seq<seq<byte>>>, c: nat)
    requires Parts(col, recordLen, perPage, put, total, count, pages, spilled) && c < PARTITION_NUM
    ensures spilled[c] != [] <==> total[c] > perPage
    ensures total[c] == |OfCode(col, put, c)|
  {
    assert PartAt(col, perPage, put, total, count, pages, spilled, c);
  }

  /**
   * put_tup's test `record_len * tup_count + record_len > page_size`: with
   * at most a page's worth on the page, the page is full exactly when it
   * holds page_size / record_len tuples.
   */
  lemma PageFull(recordLen: nat, pageSize: nat, n: nat)
    requires 0 < recordLen && n <= pageSize / recordLen
    ensures recordLen * n + recordLen > pageSize <==> n == pageSize / recordLen
  {
    var q := pageSize / recordLen;
    assert pageSize == q * recordLen + pageSize % recordLen;
    if n < q {
      assert recordLen * n + recordLen == recordLen * (n + 1) <= recordLen * q;
    }
  }

  /** put_tup keeps the partitions in step with the tuples put, flushing a full page first. */
  lemma PutKeeps(col: ColMeta, recordLen: nat, perPage: nat, put: seq<seq<byte>>, total: seq<int>, count: seq<int>,
                 pages: seq<seq<seq<byte>>>, spilled: seq<seq<seq<byte>>>, t: seq<byte>)
    requires Parts(col, recordLen, perPage, put, total, count, pages, spilled)
    requires Hashable(col, t) && |t| == recordLen
    ensures var c := PartitionCode(col, t);
      var full := count[c] == perPage;
      Parts(col, recordLen, perPage, put + [t], total[c := total[c] + 1],
            count[c := if full then 1 else count[c] + 1],
            pages[c := if full then [t] else pages[c] + [t]],
            spilled[c := if full then spilled[c] + pages[c] else spilled[c]])
  {
    var c := PartitionCode(col, t);
    var full := count[c] == perPage;
    var put', total' := put + [t], total[c := total[c] + 1];
    var count' := count[c := if full then 1 else count[c] + 1];
    var pages' := pages[c := if full then [t] else pages[c] + [t]];
    var spilled' := spilled[c := if full then spilled[c] + pages[c] else spilled[c]];
    forall d | 0 <= d < PARTITION_NUM
      ensures PartAt(col, perPage, put', total', count', pages', spilled', d)
    {
      assert PartAt(col, perPage, put, total, count, pages, spilled, d);
      OfCodeAppend(col, put, t, d);
      if d == c && full {
        assert spilled'[d] + pages'[d] == (spilled[d] + pages[d]) + [t];
      } else if d == c {
        assert spilled'[d] + pages'[d] == (spilled[d] + pages[d]) + [t];
      }
    }
  }

  class Partition {
    /** record_len: the bytes of each tuple. */
    const recordLen: nat
    /** page_size: PAGE_SIZE. */
    const pageSize: nat
    /** meta: the join column the partition code is read from. */
    const meta: ColMeta
    /** tup_total_count: per partition, every tuple put into it. */
    var total: seq<int>
    /** tup_count: per partition, the tuples on its page. */
    var count: seq<int>
    /** part_pages: per partition, the tuples on its page, in order. */
    var pages: seq<seq<seq<byte>>>
    /** The spill files: per partition, the tuples flushed to it, in order. */
    var spilled: seq<seq<seq<byte>>>
    /** The tuples put so far, in order. */
    ghost var put: seq<seq<byte>>

    ghost predicate Valid()
      reads this
    {
      && 0 < recordLen <= pageSize && pageSize == Disk.PAGE_SIZE
      && Parts(meta, recordLen, pageSize / recordLen, put, total, count, pages, spilled)
    }

    /** The constructor: every partition empty, nothing spilled. */
    constructor(recordLen: nat, meta: ColMeta)
      requires 0 < recordLen <= Disk.PAGE_SIZE
      ensures Valid() && put == [] && this.recordLen == recordLen && this.meta == meta
    {
      this.recordLen := recordLen;
      this.meta := meta;
      pageSize := Disk.PAGE_SIZE;
      total := seq(PARTITION_NUM, _ => 0);
      count := seq(PARTITION_NUM, _ => 0);
      pages := seq(PARTITION_NUM, _ => []);
      spilled := seq(PARTITION_NUM, _ => []);
      put := [];
    }

    /** flush_to_file: the partition's page appended to its spill file, and the page emptied. */
    method FlushToFile(c: nat)
      requires c < |count| && c < |pages| && c < |spilled|
      modifies this`count, this`pages, this`spilled
      ensures spilled == old(spilled)[c := old(spilled)[c] + old(pages)[c]]
      ensures pages == old(pages)[c := []] && count == old(count)[c := 0]
    {
      spilled := spilled[c := spilled[c] + pages[c]];
      pages := pages[c := []];
      count := count[c := 0];
    }

    /**
     * put_tup: the tuple counted in its partition, the partition's page
     * flushed first when it has no room for it, then the tuple copied onto
     * the page.
     */
    method PutTup(t: seq<byte>)
      requires Valid() && Hashable(meta, t) && |t| == recordLen
      modifies this`total, this`count, this`pages, this`spilled, this`put
      ensures Valid() && put == old(put) + [t]
      ensures var c := PartitionCode(meta, t);
        var full := old(count)[c] == pageSize / recordLen;
        && total == old(total)[c := old(total)[c] + 1]
        && count == old(count)[c := if full then 1 else old(count)[c] + 1]
        && pages == old(pages)[c := if full then [t] else old(pages)[c] + [t]]
        && spilled == old(spilled)[c := if full then old(spilled)[c] + old(pages)[c] else old(spilled)[c]]
    {
      ghost var perPage, total0, count0, pages0, spilled0 := pageSize / recordLen, total, count, pages, spilled;
      PutKeeps(meta, recordLen, perPage, put, total, count, pages, spilled, t);
      var code := PartitionCode(meta, t);
      assert PartAt(meta, perPage, put, total, count, pages, spilled, code);
      PageFull(recordLen, pageSize, count[code]);
      ghost var full := count[code] == perPage;
      total := total[code := total[code] + 1];
      var occupied := recordLen * count[code];
      if occupied + recordLen > pageSize {
        FlushToFile(code);
        assert pages[code] + [t] == [t];
      }
      pages := pages[code := pages[code] + [t]];
      count := count[code := count[code] + 1];
      put := put + [t];
      assert pages == pages0[code := if full then [t] else pages0[code] + [t]];
      assert count == count0[code := if full then 1 else count0[code] + 1];
      assert spilled == spilled0[code := if full then spilled0[code] + pages0[code] else spilled0[code]];
      assert Parts(meta, recordLen, perPage, put, total, count, pages, spilled);
    }

    /**
     * get_partition for a partition number below PARTITION_NUM: its tuples
     * and their count. One that spilled is read from its spill file followed
     * by its page; any other is its page alone. Either way it is every tuple
     * put of that code, in the order they were put.
     */
    method GetPartition(idx: nat) returns (part: seq<seq<byte>>, num: int)
      requires Valid() && idx < PARTITION_NUM
      ensures num == |part| && part == OfCode(meta, put, idx)
    {
      SpilledIffOver(meta, recordLen, pageSize / recordLen, put, total, count, pages, spilled, idx);
      assert PartAt(meta, pageSize / recordLen, put, total, count, pages, spilled, idx);
      num := total[idx];
      var perPage := pageSize / recordLen;
      if total[idx] > perPage {
        part := spilled[idx] + pages[idx];
      } else {
        part := pages[idx];
      }
    }
  }

  /**
   * get_partition's read of a spilled partition as written: fread asks for
   * tup_total_count records from a file that holds the flushed ones
   * (`file`), and a count short of tup_total_count reaches assert(0), here
   * None. Otherwise the page's tuples follow the records read.
   */
  function SpillReadAsWritten(file: seq<seq<byte>>, page: seq<seq<byte>>, totalCount: nat): (r: Option<seq<seq<byte>>>)
    ensures r.Some? <==> totalCount <= |file|
    ensures r.Some? ==> |r.value| == totalCount + |page| && r.value[totalCount..] == page
  {
    var count := if totalCount <= |file| then totalCount else |file|;
    if count != totalCount then None else Some(file[..count] + page)
  }

  /**
   * Every partition that spilled fails that read: its file holds the
   * flushed tuples only, fewer than tup_total_count, because the page
   * always holds one more.
   */
  lemma SpilledReadAsWrittenFails(col: ColMeta, recordLen: nat, perPage: nat, put: seq<seq<byte>>, total: seq<int>,
                                  count: seq<int>, pages: seq<seq<seq<byte>>>, spilled: seq<seq<seq<byte>>>, c: nat)
    requires Parts(col, recordLen, perPage, put, total, count, pages, spilled) && c < PARTITION_NUM
    requires total[c] > perPage
    ensures SpillReadAsWritten(spilled[c], pages[c], total[c]) == None
  {
    SpilledIffOver(col, recordLen, perPage, put, total, count, pages, spilled, c);
    assert PartAt(col, perPage, put, total, count, pages, spilled, c);
  }

  /** The partitioning loop of beginTuple: each tuple of a child, in order, put into the partitions. */
  method PartitionAll(p: Partition, recs: seq<seq<byte>>)
    requires p.Valid() && Partitionable(p.meta, p.recordLen, recs)
    modifies p
    ensures p.Valid() && p.put == old(p.put) + recs
  {
    var i := 0;
    while i < |recs|
      invariant 0 <= i <= |recs| && p.Valid() && p.put == old(p.put) + recs[..i]
    {
      assert recs[..i + 1] == recs[..i] + [recs[i]];
      p.PutTup(recs[i]);
      i := i + 1;
    }
    assert recs[..i] == recs;
  }
}
