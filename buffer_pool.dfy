// The buffer pool (src/storage/buffer_pool_manager.cpp): a fixed array of
// frames, the page table from page ids to frames, the free list and the
// replacer's frames in least-recently-unpinned order. Page contents on disk
// are a map from page id to bytes; page numbers for new pages come from the
// disk manager.
module BufferPool {
  import opened Wrappers
  import opened Disk

  const INVALID_PAGE_ID: int := -1

  datatype PageId = PageId(fd: int, pageNo: int)

  /** The id a frame holds when it holds no page. */
  const NoPage: PageId := PageId(-1, INVALID_PAGE_ID)

  /** A frame of the pool: which page it holds, its pin count, dirty flag and bytes. */
  datatype Frame = Frame(id: PageId, pinCount: int, dirty: bool, data: seq<byte>)

  datatype BufferError = BufferpoolFullError | ReadError

  /** reset_memory: a page of zero bytes. */
  function ZeroPage(): (r: seq<byte>)
    ensures |r| == PAGE_SIZE && forall i :: 0 <= i < |r| ==> r[i] == 0
  {
    seq(PAGE_SIZE, _ => 0)
  }

  /** No frame number occurs twice. */
  ghost predicate Distinct(s: seq<int>)
  {
    forall i, j :: 0 <= i < j < |s| ==> s[i] != s[j]
  }

  /** A sequence has no repeats when its head is not in its tail, which has none. */
  lemma DistinctCons(x: int, t: seq<int>)
    ensures Distinct([x] + t) <==> x !in t && Distinct(t)
  {
    var s := [x] + t;
    if Distinct(s) {
      forall i, j | 0 <= i < j < |t| ensures t[i] != t[j] {
        assert s[i + 1] == t[i] && s[j + 1] == t[j];
      }
      forall k | 0 <= k < |t| ensures t[k] != x {
        assert s[k + 1] == t[k] && s[0] == x && 0 < k + 1;
      }
    }
    if x !in t && Distinct(t) {
      forall i, j | 0 <= i < j < |s| ensures s[i] != s[j] {
        if i > 0 { assert s[i] == t[i - 1] && s[j] == t[j - 1]; }
        else { assert s[j] == t[j - 1]; }
      }
    }
  }

  /** The replacer's order with frame f taken out: what pin does to it. */
  function Without(s: seq<int>, f: int): (r: seq<int>)
    ensures forall x :: x in r <==> x in s && x != f
    ensures f !in s ==> r == s
    ensures Distinct(s) ==> Distinct(r)
    ensures |r| <= |s|
  {
    if s == [] then []
    else
      assert s == [s[0]] + s[1..];
      DistinctCons(s[0], s[1..]);
      var rest := Without(s[1..], f);
      DistinctCons(s[0], rest);
      if s[0] == f then rest else [s[0]] + rest
  }

  /**
   * Frame f was taken as a victim: the free list's front, or else the least
   * recently unpinned frame, the last of the replacer's order, which leaves it.
   */
  ghost predicate Took(f: int, fl0: seq<int>, ev0: seq<int>, fl1: seq<int>, ev1: seq<int>)
  {
    if fl0 != [] then f == fl0[0] && fl1 == fl0[1..] && ev1 == ev0
    else ev0 != [] && f == ev0[|ev0| - 1] && fl1 == fl0 && ev1 == ev0[..|ev0| - 1]
  }

  /** The disk after a frame's page is written back, if the frame is dirty. */
  function WriteBack(d: map<PageId, seq<byte>>, fr: Frame): (r: map<PageId, seq<byte>>)
    ensures !fr.dirty ==> r == d
    ensures fr.dirty ==> fr.id in r && r[fr.id] == fr.data && forall id :: id != fr.id ==> (id in r <==> id in d)
  {
    if fr.dirty then d[fr.id := fr.data] else d
  }

  /** A frame that has just taken page id: read in with one pin, or zeroed and unpinned when the read failed. */
  function Loaded(id: PageId, read: bool, d: map<PageId, seq<byte>>): (fr: Frame)
    requires read ==> id in d
    ensures fr.id == id && !fr.dirty
    ensures fr.pinCount == if read then 1 else 0
    ensures read ==> fr.data == d[id]
  {
    if read then Frame(id, 1, false, d[id]) else Frame(id, 0, false, ZeroPage())
  }

  /** Every frame number the table, the free list and the replacer hold is below n. */
  ghost predicate InRange(n: int, pt: map<PageId, int>, fl: seq<int>, lru: seq<int>)
  {
    && (forall id :: id in pt ==> 0 <= pt[id] < n)
    && (forall i :: 0 <= i < |fl| ==> 0 <= fl[i] < n)
    && (forall i :: 0 <= i < |lru| ==> 0 <= lru[i] < n)
  }

  /**
   * The replacer and the free list agree with the frames: a victim is never
   * a pinned frame, no frame is both free and evictable, a free frame holds
   * no page, neither list repeats a frame, and no page id maps to NoPage.
   */
  ghost predicate PoolSound(fs: seq<Frame>, pt: map<PageId, int>, fl: seq<int>, lru: seq<int>)
    requires InRange(|fs|, pt, fl, lru)
  {
    && (forall i :: 0 <= i < |lru| ==> fs[lru[i]].pinCount == 0 && lru[i] !in fl)
    && (forall i :: 0 <= i < |fl| ==> fs[fl[i]].id == NoPage)
    && Distinct(fl) && Distinct(lru)
    && NoPage !in pt
  }

  /** A frame may change freely as long as it stays free if free and unpinned if evictable. */
  lemma SetFrameKeeps(fs: seq<Frame>, pt: map<PageId, int>, fl: seq<int>, lru: seq<int>, f: int, fr: Frame)
    requires InRange(|fs|, pt, fl, lru) && PoolSound(fs, pt, fl, lru) && 0 <= f < |fs|
    requires f in fl ==> fr.id == NoPage
    requires f in lru ==> fr.pinCount == 0
    ensures InRange(|fs[f := fr]|, pt, fl, lru) && PoolSound(fs[f := fr], pt, fl, lru)
  {
  }

  /** A frame that holds a page is not on the free list. */
  lemma HeldNotFree(fs: seq<Frame>, pt: map<PageId, int>, fl: seq<int>, lru: seq<int>, f: int)
    requires InRange(|fs|, pt, fl, lru) && PoolSound(fs, pt, fl, lru) && 0 <= f < |fs|
    requires fs[f].id != NoPage
    ensures f !in fl
  {
    forall i | 0 <= i < |fl| ensures fl[i] != f {
      assert fs[fl[i]].id == NoPage;
    }
  }

  /** Taking a victim keeps the pool sound, and the victim is then in neither list. */
  lemma TookKeeps(fs: seq<Frame>, pt: map<PageId, int>, fl0: seq<int>, ev0: seq<int>, fl1: seq<int>, ev1: seq<int>, f: int)
    requires InRange(|fs|, pt, fl0, ev0) && PoolSound(fs, pt, fl0, ev0)
    requires Took(f, fl0, ev0, fl1, ev1)
    ensures InRange(|fs|, pt, fl1, ev1) && PoolSound(fs, pt, fl1, ev1)
    ensures f !in fl1 && f !in ev1 && 0 <= f < |fs|
  {
    if fl0 != [] {
      assert fl0 == [f] + fl1;
      DistinctCons(f, fl1);
      forall i | 0 <= i < |ev0| ensures ev0[i] !in fl1 {
        assert ev0[i] !in fl0;
      }
      forall i | 0 <= i < |fl1| ensures fs[fl1[i]].id == NoPage {
        assert fl1[i] == fl0[i + 1];
      }
    } else {
      var n := |ev0| - 1;
      forall i | 0 <= i < n ensures ev1[i] != f {
        assert ev1[i] == ev0[i] && ev0[n] == f;
      }
    }
  }

  /** An unpinned frame that is in neither list may join the front of the replacer's order. */
  lemma PushFrontKeeps(fs: seq<Frame>, pt: map<PageId, int>, fl: seq<int>, lru: seq<int>, f: int)
    requires InRange(|fs|, pt, fl, lru) && PoolSound(fs, pt, fl, lru) && 0 <= f < |fs|
    requires fs[f].pinCount == 0 && f !in fl && f !in lru
    ensures InRange(|fs|, pt, fl, [f] + lru) && PoolSound(fs, pt, fl, [f] + lru)
  {
    DistinctCons(f, lru);
    var l := [f] + lru;
    forall i | 0 <= i < |l| ensures 0 <= l[i] < |fs| && fs[l[i]].pinCount == 0 && l[i] !in fl {
      if i > 0 { assert l[i] == lru[i - 1]; }
    }
  }

  /** A frame holding no page and in neither list may join the back of the free list. */
  lemma PushBackKeeps(fs: seq<Frame>, pt: map<PageId, int>, fl: seq<int>, lru: seq<int>, f: int)
    requires InRange(|fs|, pt, fl, lru) && PoolSound(fs, pt, fl, lru) && 0 <= f < |fs|
    requires fs[f].id == NoPage && f !in fl && f !in lru
    ensures InRange(|fs|, pt, fl + [f], lru) && PoolSound(fs, pt, fl + [f], lru)
  {
    var l := fl + [f];
    forall i, j | 0 <= i < j < |l| ensures l[i] != l[j] {
      if j == |fl| { assert l[i] == fl[i]; }
    }
    forall i | 0 <= i < |l| ensures 0 <= l[i] < |fs| && fs[l[i]].id == NoPage {
      if i < |fl| { assert l[i] == fl[i]; }
    }
  }

  /**
   * delete_page as written frees a frame without taking it out of the
   * replacer: an evictable frame pushed onto the free list leaves the pool
   * unsound, whatever the rest of the state.
   */
  lemma FreeWhileEvictableBreaks(fs: seq<Frame>, pt: map<PageId, int>, fl: seq<int>, lru: seq<int>, f: int)
    requires InRange(|fs|, pt, fl, lru) && 0 <= f < |fs| && f in lru
    ensures InRange(|fs|, pt, fl + [f], lru) && !PoolSound(fs, pt, fl + [f], lru)
  {
    var k :| 0 <= k < |lru| && lru[k] == f;
    assert lru[k] in fl + [f];
  }

  /** Pinning a frame takes it out of the replacer and keeps the pool sound. */
  lemma WithoutKeeps(fs: seq<Frame>, pt: map<PageId, int>, fl: seq<int>, lru: seq<int>, f: int)
    requires InRange(|fs|, pt, fl, lru) && PoolSound(fs, pt, fl, lru)
    ensures InRange(|fs|, pt, fl, Without(lru, f)) && PoolSound(fs, pt, fl, Without(lru, f))
  {
    var w := Without(lru, f);
    forall i | 0 <= i < |w| ensures 0 <= w[i] < |fs| && fs[w[i]].pinCount == 0 && w[i] !in fl {
      assert w[i] in lru;
      var k :| 0 <= k < |lru| && lru[k] == w[i];
    }
  }

  class BufferPoolManager {
    const frames: array<Frame>
    var pageTable: map<PageId, int>
    var freeList: seq<int>
    /**
     * The replacer's frames, most recently unpinned first: unpin puts a
     * frame at the front, pin takes it out, a victim comes off the back.
     */
    var lru: seq<int>
    /** The pages as stored on disk. */
    var disk: map<PageId, seq<byte>>
    const dm: DiskManager

    /** Every frame number the pool keeps is a frame of the pool. */
    ghost predicate Valid()
      reads this, dm
    {
      dm.Valid() && InRange(frames.Length, pageTable, freeList, lru)
    }

    /** The pool's lists and frames are PoolSound. */
    ghost predicate Sound()
      requires Valid()
      reads this, dm, frames
    {
      PoolSound(frames[..], pageTable, freeList, lru)
    }

    /** The page table's entry for id is current: its frame holds that page. */
    ghost predicate Resident(id: PageId)
      requires Valid()
      reads this, dm, frames
    {
      id in pageTable && frames[pageTable[id]].id == id
    }

    /** An empty pool: every frame free, in order, none evictable. */
    constructor(poolSize: nat, dm: DiskManager)
      requires dm.Valid()
      ensures Valid() && Sound() && this.dm == dm && frames.Length == poolSize
      ensures pageTable == map[] && lru == [] && disk == map[]
      ensures |freeList| == poolSize && forall i :: 0 <= i < poolSize ==> freeList[i] == i
    {
      frames := new Frame[poolSize](_ => Frame(NoPage, 0, false, ZeroPage()));
      pageTable := map[];
      freeList := seq(poolSize, i => i);
      lru := [];
      disk := map[];
      this.dm := dm;
    }

    /**
     * find_victim_page: the front of the free list when there is one,
     * otherwise the replacer's least recently unpinned frame, which leaves
     * it; false when there is neither.
     */
    method FindVictim() returns (found: bool, f: int)
      requires Valid()
      modifies this`freeList, this`lru
      ensures Valid()
      ensures found <==> old(freeList) != [] || old(lru) != []
      ensures found ==> 0 <= f < frames.Length && Took(f, old(freeList), old(lru), freeList, lru)
      ensures !found ==> freeList == old(freeList) && lru == old(lru)
    {
      if freeList != [] {
        f := freeList[0];
        freeList := freeList[1..];
        return true, f;
      }
      if lru == [] {
        return false, -1;
      }
      f := lru[|lru| - 1];
      lru := lru[..|lru| - 1];
      return true, f;
    }

    /**
     * update_page: a dirty frame is written back under the page it held;
     * then the frame takes the id `newId`, clean, unpinned and zeroed.
     */
    method UpdatePage(f: int, newId: PageId)
      requires Valid() && 0 <= f < frames.Length
      modifies frames, this`disk
      ensures disk == WriteBack(old(disk), old(frames[f]))
      ensures frames[..] == old(frames[..])[f := Frame(newId, 0, false, ZeroPage())]
    {
      if frames[f].dirty {
        disk := disk[frames[f].id := frames[f].data];
      }
      frames[f] := Frame(newId, 0, false, ZeroPage());
    }

    /**
     * fetch_page: a resident page gains a pin and leaves the replacer. A
     * stale table entry is dropped and the fetch retried, which then misses
     * (the retry is written here as the miss path directly). Otherwise the page
     * goes to a victim frame v (full pool: BufferpoolFullError), whose old
     * contents are written back if dirty, and is read in with one pin. A
     * page never written to disk fails to read, and its frame is left
     * mapped, unpinned and outside the replacer.
     */
    method FetchPage(id: PageId) returns (r: Result<int, BufferError>, ghost v: int)
      requires Valid() && Sound() && id != NoPage
      modifies this`pageTable, this`freeList, this`lru, this`disk, frames
      ensures Valid() && Sound()
      ensures r.Ok? ==> 0 <= r.value < frames.Length && frames[r.value].id == id
      ensures old(Resident(id)) ==>
        && r == Ok(old(pageTable[id]))
        && frames[..] == old(frames[..])[r.value := old(frames[r.value]).(pinCount := old(frames[r.value]).pinCount + 1)]
        && pageTable == old(pageTable) && freeList == old(freeList) && disk == old(disk)
        && lru == Without(old(lru), r.value)
      ensures !old(Resident(id)) ==>
        && (r == Err(BufferpoolFullError) <==> old(freeList) == [] && old(lru) == [])
        && (r == Err(BufferpoolFullError) ==>
              pageTable == old(pageTable) - {id} && freeList == old(freeList) && lru == old(lru)
              && disk == old(disk) && frames[..] == old(frames[..]))
        && (r != Err(BufferpoolFullError) ==>
              && 0 <= v < frames.Length && Took(v, old(freeList), old(lru), freeList, lru)
              && pageTable == old(pageTable)[id := v] && disk == WriteBack(old(disk), old(frames[v]))
              && (r.Ok? <==> id in disk) && (r.Ok? ==> r.value == v)
              && frames[..] == old(frames[..])[v := Loaded(id, r.Ok?, disk)])
    {
      v := -1;
      if id in pageTable {
        var f := pageTable[id];
        if frames[f].id != id {
          r, v := FetchStale(id);
          return;
        }
        FetchHit(id, f);
        return Ok(f), v;
      }
      assert pageTable - {id} == pageTable;
      r, v := FetchMiss(id);
    }

    /** fetch_page's hit path: the frame gains a pin and leaves the replacer. */
    method FetchHit(id: PageId, f: int)
      requires Valid() && Sound() && id in pageTable && f == pageTable[id] && frames[f].id == id
      modifies this`lru, frames
      ensures Valid() && Sound()
      ensures lru == Without(old(lru), f)
      ensures frames[..] == old(frames[..])[f := old(frames[f]).(pinCount := old(frames[f]).pinCount + 1)]
    {
      HeldNotFree(frames[..], pageTable, freeList, lru, f);
      WithoutKeeps(frames[..], pageTable, freeList, lru, f);
      lru := Without(lru, f);
      var fr := frames[f].(pinCount := frames[f].pinCount + 1);
      SetFrameKeeps(frames[..], pageTable, freeList, lru, f, fr);
      frames[f] := fr;
    }

    /** fetch_page on a stale entry: the entry is dropped and the retried fetch misses. */
    method FetchStale(id: PageId) returns (r: Result<int, BufferError>, ghost v: int)
      requires Valid() && Sound() && id != NoPage && id in pageTable && frames[pageTable[id]].id != id
      modifies this`pageTable, this`freeList, this`lru, this`disk, frames
      ensures Valid() && Sound()
      ensures r.Ok? ==> 0 <= r.value < frames.Length && frames[r.value].id == id
      ensures r == Err(BufferpoolFullError) <==> old(freeList) == [] && old(lru) == []
      ensures r == Err(BufferpoolFullError) ==>
        pageTable == old(pageTable) - {id} && freeList == old(freeList) && lru == old(lru)
        && disk == old(disk) && frames[..] == old(frames[..])
      ensures r != Err(BufferpoolFullError) ==>
        && 0 <= v < frames.Length && Took(v, old(freeList), old(lru), freeList, lru)
        && pageTable == old(pageTable)[id := v] && disk == WriteBack(old(disk), old(frames[v]))
        && (r.Ok? <==> id in disk) && (r.Ok? ==> r.value == v)
        && frames[..] == old(frames[..])[v := Loaded(id, r.Ok?, disk)]
    {
      ghost var pt0 := pageTable;
      pageTable := pageTable - {id};
      r, v := FetchMiss(id);
      assert (pt0 - {id})[id := v] == pt0[id := v];
    }

    /** fetch_page's miss path, for a page the table does not hold. */
    method FetchMiss(id: PageId) returns (r: Result<int, BufferError>, ghost v: int)
      requires Valid() && Sound() && id != NoPage && id !in pageTable
      modifies this`pageTable, this`freeList, this`lru, this`disk, frames
      ensures Valid() && Sound()
      ensures r.Ok? ==> 0 <= r.value < frames.Length && frames[r.value].id == id
      ensures r == Err(BufferpoolFullError) <==> old(freeList) == [] && old(lru) == []
      ensures r == Err(BufferpoolFullError) ==>
        pageTable == old(pageTable) && freeList == old(freeList) && lru == old(lru)
        && disk == old(disk) && frames[..] == old(frames[..])
      ensures r != Err(BufferpoolFullError) ==>
        && 0 <= v < frames.Length && Took(v, old(freeList), old(lru), freeList, lru)
        && pageTable == old(pageTable)[id := v] && disk == WriteBack(old(disk), old(frames[v]))
        && (r.Ok? <==> id in disk) && (r.Ok? ==> r.value == v)
        && frames[..] == old(frames[..])[v := Loaded(id, r.Ok?, disk)]
    {
      ghost var fl0, ev0 := freeList, lru;
      var found, f := FindVictim();
      v := f;
      if !found {
        return Err(BufferpoolFullError), v;
      }
      TookKeeps(frames[..], pageTable, fl0, ev0, freeList, lru, f);
      var read := ReadInto(f, id);
      if !read {
        return Err(ReadError), v;
      }
      return Ok(f), v;
    }

    /**
     * The miss path once victim frame f is out of both lists: the table
     * maps id to f, the frame's old page is written back if dirty, and the
     * page is read in with one pin (zeroed and unpinned when it was never
     * written to disk).
     */
    method ReadInto(f: int, id: PageId) returns (read: bool)
      requires Valid() && Sound() && 0 <= f < frames.Length && f !in freeList && f !in lru
      requires id != NoPage && id !in pageTable
      modifies this`pageTable, this`disk, frames
      ensures Valid() && Sound()
      ensures pageTable == old(pageTable)[id := f] && disk == WriteBack(old(disk), old(frames[f]))
      ensures read <==> id in disk
      ensures frames[..] == old(frames[..])[f := Loaded(id, read, disk)]
    {
      pageTable := pageTable[id := f];
      ghost var fs0 := frames[..];
      UpdatePage(f, id);
      SetFrameKeeps(fs0, pageTable, freeList, lru, f, Loaded(id, id in disk, disk));
      if id !in disk {
        return false;
      }
      frames[f] := Loaded(id, true, disk);
      return true;
    }

    /**
     * unpin_page: false for an absent page, a stale entry (which is dropped)
     * or a page with no pins. Otherwise one pin goes; at zero the frame joins
     * the front of the replacer's order; the dirty flag only ever gains
     * `isDirty`.
     */
    method UnpinPage(id: PageId, isDirty: bool) returns (ok: bool)
      requires Valid() && Sound()
      modifies this`pageTable, this`lru, frames
      ensures Valid() && Sound()
      ensures ok <==> old(Resident(id)) && old(frames[pageTable[id]].pinCount) != 0
      ensures id in old(pageTable) && !old(Resident(id)) ==> pageTable == old(pageTable) - {id}
      ensures !ok ==> lru == old(lru) && frames[..] == old(frames[..])
      ensures old(Resident(id)) ==> pageTable == old(pageTable)
      ensures id !in old(pageTable) ==> pageTable == old(pageTable)
      ensures ok ==>
        var f := pageTable[id];
        var fr := old(frames[f]);
        && frames[..] == old(frames[..])[f := fr.(pinCount := fr.pinCount - 1, dirty := fr.dirty || isDirty)]
        && lru == (if fr.pinCount == 1 && f !in old(lru) then [f] + old(lru) else old(lru))
    {
      if id !in pageTable {
        return false;
      }
      var f := pageTable[id];
      if frames[f].id != id {
        pageTable := pageTable - {id};
        return false;
      }
      if frames[f].pinCount == 0 {
        return false;
      }
      var pins := frames[f].pinCount - 1;
      HeldNotFree(frames[..], pageTable, freeList, lru, f);
      var fr := frames[f].(pinCount := pins, dirty := frames[f].dirty || isDirty);
      SetFrameKeeps(frames[..], pageTable, freeList, lru, f, fr);
      frames[f] := fr;
      if pins == 0 && f !in lru {
        PushFrontKeeps(frames[..], pageTable, freeList, lru, f);
        lru := [f] + lru;
      }
      return true;
    }

    /**
     * flush_page: false for an absent page or a stale entry (which is
     * dropped); otherwise the page's bytes go to disk, pinned or not, and
     * the frame is clean.
     */
    method FlushPage(id: PageId) returns (ok: bool)
      requires Valid() && Sound()
      modifies this`pageTable, this`disk, frames
      ensures Valid() && Sound()
      ensures ok <==> old(Resident(id))
      ensures id in old(pageTable) && !ok ==> pageTable == old(pageTable) - {id}
      ensures !ok ==> disk == old(disk) && frames[..] == old(frames[..])
      ensures ok ==>
        var f := old(pageTable[id]);
        && pageTable == old(pageTable)
        && disk == old(disk)[id := old(frames[f]).data]
        && frames[..] == old(frames[..])[f := old(frames[f]).(dirty := false)]
    {
      if id !in pageTable {
        return false;
      }
      var f := pageTable[id];
      if frames[f].id != id {
        pageTable := pageTable - {id};
        return false;
      }
      disk := disk[id := frames[f].data];
      var fr := frames[f].(dirty := false);
      SetFrameKeeps(frames[..], pageTable, freeList, lru, f, fr);
      frames[f] := fr;
      return true;
    }

    /**
     * new_page: a victim frame (none: no page) takes the next page number of
     * `fd`, is written back if dirty, zeroed, written out as the new page
     * and left with one pin, outside the replacer.
     */
    method NewPage(fd: int) returns (r: Option<int>, id: PageId)
      requires Valid() && Sound() && 0 <= fd < MAX_FD
      modifies this`pageTable, this`freeList, this`lru, this`disk, frames, dm.fd2pageno
      ensures Valid() && Sound()
      ensures r.None? <==> old(freeList) == [] && old(lru) == []
      ensures r.None? ==>
        pageTable == old(pageTable) && freeList == old(freeList) && lru == old(lru)
        && disk == old(disk) && frames[..] == old(frames[..]) && dm.fd2pageno[..] == old(dm.fd2pageno[..])
      ensures r.Some? ==>
        var f := r.value;
        && 0 <= f < frames.Length
        && id == PageId(fd, old(dm.fd2pageno[fd])) && dm.fd2pageno[fd] == id.pageNo + 1
        && Took(f, old(freeList), old(lru), freeList, lru)
        && pageTable == old(pageTable)[id := f]
        && disk == WriteBack(old(disk), old(frames[f]))[id := ZeroPage()]
        && frames[..] == old(frames[..])[f := Frame(id, 1, false, ZeroPage())]
    {
      id := NoPage;
      ghost var fl0, ev0 := freeList, lru;
      var found, f := FindVictim();
      if !found {
        return None, id;
      }
      TookKeeps(frames[..], pageTable, fl0, ev0, freeList, lru, f);
      var pageNo := dm.AllocatePage(fd);
      id := PageId(fd, pageNo);
      pageTable := pageTable[id := f];
      lru := Without(lru, f);
      ghost var fs0 := frames[..];
      ghost var fr := Frame(id, 1, false, ZeroPage());
      SetFrameKeeps(fs0, pageTable, freeList, lru, f, fr);
      UpdatePage(f, id);
      disk := disk[id := frames[f].data];
      frames[f] := frames[f].(pinCount := 1);
      assert frames[..] == fs0[f := fr];
      return Some(f), id;
    }

    /**
     * delete_page: true for an absent page or a stale entry (which is
     * dropped), false for a pinned page. Otherwise the page leaves the table,
     * its frame is reset to hold no page, leaves the replacer and joins the
     * back of the free list.
     */
    method DeletePage(id: PageId) returns (ok: bool)
      requires Valid() && Sound()
      modifies this`pageTable, this`freeList, this`lru, frames
      ensures Valid() && Sound()
      ensures !ok <==> old(Resident(id)) && old(frames[pageTable[id]].pinCount) != 0
      ensures !old(Resident(id)) ==>
        pageTable == old(pageTable) - {id} && freeList == old(freeList) && lru == old(lru)
        && frames[..] == old(frames[..])
      ensures !ok ==>
        pageTable == old(pageTable) && freeList == old(freeList) && lru == old(lru) && frames[..] == old(frames[..])
      ensures ok && old(Resident(id)) ==>
        var f := old(pageTable[id]);
        && pageTable == old(pageTable) - {id}
        && freeList == old(freeList) + [f]
        && lru == Without(old(lru), f)
        && frames[..] == old(frames[..])[f := Frame(NoPage, 0, false, ZeroPage())]
    {
      if id !in pageTable {
        return true;
      }
      var f := pageTable[id];
      if frames[f].id != id {
        pageTable := pageTable - {id};
        return true;
      }
      if frames[f].pinCount != 0 {
        return false;
      }
      HeldNotFree(frames[..], pageTable, freeList, lru, f);
      WithoutKeeps(frames[..], pageTable, freeList, lru, f);
      lru := Without(lru, f);
      var fr := Frame(NoPage, 0, false, ZeroPage());
      SetFrameKeeps(frames[..], pageTable, freeList, lru, f, fr);
      frames[f] := fr;
      PushBackKeeps(frames[..], pageTable, freeList, lru, f);
      pageTable := pageTable - {id};
      freeList := freeList + [f];
      return true;
    }

    /**
     * delete_page as the source writes it: the freed frame is not taken out
     * of the replacer. A page unpinned to zero and then deleted leaves its
     * frame both on the free list and among the victims, so the pool is no
     * longer Sound: the frame can be handed out twice.
     */
    method DeletePageAsWritten(id: PageId) returns (ok: bool)
      requires Valid() && Sound()
      modifies this`pageTable, this`freeList, frames
      ensures Valid()
      ensures !ok <==> old(Resident(id)) && old(frames[pageTable[id]].pinCount) != 0
      ensures ok && old(Resident(id)) && old(pageTable[id]) in old(lru) ==>
        var f := old(pageTable[id]);
        f in freeList && f in lru && !Sound()
    {
      if id !in pageTable {
        return true;
      }
      var f := pageTable[id];
      if frames[f].id != id {
        pageTable := pageTable - {id};
        return true;
      }
      if frames[f].pinCount != 0 {
        return false;
      }
      pageTable := pageTable - {id};
      freeList := freeList + [f];
      frames[f] := Frame(NoPage, 0, false, ZeroPage());
      return true;
    }
  }
}
