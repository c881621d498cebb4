// The record-file scan (src/record/rm_scan.cpp): a cursor over the occupied
// slots of a heap file. The file is seen through its slot bitmaps, one per
// page; page 0 is the file header and holds no records. Fetching a page
// handle pins the page and unpinning releases it; the scan's pins are kept
// as the set of pages it holds.
module RecordScan {
  import opened IxNode

  /** The rid the scan holds once it has run off the end of the file. */
  const End: Rid := Rid(-1, -1)

  /**
   * Bitmap::next_bit / first_bit looking for a set bit: the first set bit
   * at or after `from`, or |bm| when there is none.
   */
  function NextSet(bm: seq<bool>, from: nat): (r: nat)
    requires from <= |bm|
    ensures from <= r <= |bm|
    ensures r < |bm| ==> bm[r]
    ensures forall i :: from <= i < r ==> !bm[i]
    decreases |bm| - from
  {
    if from == |bm| then |bm|
    else if bm[from] then from
    else NextSet(bm, from + 1)
  }

  /** Every page's bitmap covers the file's records per page. */
  ghost predicate WellFormed(file: seq<seq<bool>>, perPage: nat)
  {
    forall p :: 0 <= p < |file| ==> |file[p]| == perPage
  }

  /** A record sits at rid r: a data page (not the header) whose slot bit is set. */
  ghost predicate Occupied(file: seq<seq<bool>>, perPage: nat, r: Rid)
    requires WellFormed(file, perPage)
  {
    1 <= r.pageNo < |file| && 0 <= r.slotNo < perPage && file[r.pageNo][r.slotNo]
  }

  /** Rids in scan order: by page number, then by slot number. */
  predicate AtOrAfter(q: Rid, p: int, s: int)
  {
    q.pageNo > p || (q.pageNo == p && q.slotNo >= s)
  }

  /**
   * The first occupied slot at or after slot s of page p, scanning the rest
   * of page p and then the following pages from their first slot; End when
   * there is none.
   */
  function FirstFrom(file: seq<seq<bool>>, perPage: nat, p: int, s: nat): (r: Rid)
    requires WellFormed(file, perPage) && 1 <= p && s <= perPage
    ensures r != End ==> Occupied(file, perPage, r) && AtOrAfter(r, p, s)
    decreases |file| - p
  {
    if p >= |file| then End
    else
      var t := NextSet(file[p], s);
      if t < perPage then Rid(p, t) else FirstFrom(file, perPage, p + 1, 0)
  }

  /**
   * Nothing is skipped: every occupied slot at or after (p, s) is at or
   * after the slot FirstFrom finds, so FirstFrom is the least such slot.
   */
  lemma {:induction false} FirstFromIsLeast(file: seq<seq<bool>>, perPage: nat, p: int, s: nat, q: Rid)
    requires WellFormed(file, perPage) && 1 <= p && s <= perPage
    requires Occupied(file, perPage, q) && AtOrAfter(q, p, s)
    ensures FirstFrom(file, perPage, p, s) != End
    ensures AtOrAfter(q, FirstFrom(file, perPage, p, s).pageNo, FirstFrom(file, perPage, p, s).slotNo)
    decreases |file| - p
  {
    var t := NextSet(file[p], s);
    if t >= perPage {
      assert q.pageNo != p;
      FirstFromIsLeast(file, perPage, p + 1, 0, q);
    }
  }

  /**
   * Stepping the scan visits every occupied slot exactly once, in order:
   * from an occupied slot c, the next slot found is strictly after c and no
   * occupied slot lies strictly between the two.
   */
  lemma NextIsSuccessor(file: seq<seq<bool>>, perPage: nat, c: Rid, q: Rid)
    requires WellFormed(file, perPage) && Occupied(file, perPage, c)
    requires Occupied(file, perPage, q) && AtOrAfter(q, c.pageNo, c.slotNo + 1)
    ensures var n := FirstFrom(file, perPage, c.pageNo, c.slotNo + 1);
      n != End && AtOrAfter(n, c.pageNo, c.slotNo + 1) && AtOrAfter(q, n.pageNo, n.slotNo)
  {
    FirstFromIsLeast(file, perPage, c.pageNo, c.slotNo + 1, q);
  }

  class RmScan {
    /** The slot bitmap of each page of the file; its length is the file's num_pages. */
    const file: seq<seq<bool>>
    /** num_records_per_page of the file header. */
    const perPage: nat
    var rid: Rid
    /** The page whose handle the scan keeps (cur_page_hanle_). */
    var curPage: int
    /** The pages the scan has fetched and not yet unpinned. */
    var pinned: set<int>

    /**
     * The scan is at an occupied slot, whose page it keeps pinned and no
     * other, or at End holding no pin.
     */
    ghost predicate Valid()
      reads this
    {
      && WellFormed(file, perPage)
      && (rid == End || (Occupied(file, perPage, rid) && curPage == rid.pageNo))
      && pinned == (if rid == End then {} else {rid.pageNo})
    }

    /**
     * The constructor: a file of at most the header page starts at End;
     * otherwise pages 1, 2, ... are fetched in turn, each empty one
     * unpinned, until a page with a set bit is found.
     */
    constructor(file: seq<seq<bool>>, perPage: nat)
      requires WellFormed(file, perPage)
      ensures Valid() && this.file == file && this.perPage == perPage
      ensures rid == FirstFrom(file, perPage, 1, 0)
    {
      this.file := file;
      this.perPage := perPage;
      rid := End;
      curPage := -1;
      pinned := {};
      new;
      if |file| <= 1 {
        return;
      }
      var pageNo := 1;
      var slotNo := perPage;
      while pageNo < |file|
        invariant 1 <= pageNo <= |file| && pinned == {} && rid == End
        invariant FirstFrom(file, perPage, pageNo, 0) == FirstFrom(file, perPage, 1, 0)
        decreases |file| - pageNo
      {
        pinned := pinned + {pageNo};
        slotNo := NextSet(file[pageNo], 0);
        if slotNo != perPage {
          break;
        }
        pinned := pinned - {pageNo};
        pageNo := pageNo + 1;
      }
      if pageNo >= |file| {
        return;
      }
      rid := Rid(pageNo, slotNo);
      curPage := pageNo;
    }

    /**
     * next: the next set bit after the current slot on the current page;
     * failing that the current page is unpinned and the following pages are
     * fetched in turn, each empty one unpinned, until one has a set bit;
     * End when none has.
     */
    method Next()
      requires Valid() && rid != End
      modifies this`rid, this`curPage, this`pinned
      ensures Valid()
      ensures rid == FirstFrom(file, perPage, old(rid).pageNo, old(rid).slotNo + 1)
    {
      var pageNo := rid.pageNo;
      var slotNo := NextSet(file[curPage], rid.slotNo + 1);
      if slotNo != perPage {
        rid := Rid(pageNo, slotNo);
        return;
      }
      pinned := pinned - {pageNo};
      pageNo := pageNo + 1;
      while pageNo < |file|
        invariant old(rid).pageNo < pageNo <= |file| && pinned == {}
        invariant FirstFrom(file, perPage, pageNo, 0) == FirstFrom(file, perPage, old(rid).pageNo, old(rid).slotNo + 1)
        decreases |file| - pageNo
      {
        pinned := pinned + {pageNo};
        slotNo := NextSet(file[pageNo], 0);
        if slotNo != perPage {
          break;
        }
        pinned := pinned - {pageNo};
        pageNo := pageNo + 1;
      }
      if pageNo >= |file| {
        rid := End;
        return;
      }
      rid := Rid(pageNo, slotNo);
      curPage := pageNo;
    }

    /** is_end: page or slot number negative, which for a valid scan is exactly End. */
    function IsEnd(): (r: bool)
      reads this
      ensures Valid() ==> (r <==> rid == End)
    {
      rid.pageNo < 0 || rid.slotNo < 0
    }

    /** rid: where the scan stands, an occupied slot unless the scan is over. */
    function CurrentRid(): (r: Rid)
      reads this
      ensures Valid() && !IsEnd() ==> Occupied(file, perPage, r)
    {
      rid
    }
  }
}
