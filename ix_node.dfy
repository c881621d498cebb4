// B+-tree node pages (src/index/ix_index_handle.cpp): a node holds parallel
// key and rid arrays of which the first `numKey` slots are in use. Keys are
// compared with `ix_compare`; here a key stands for its position in that
// total order, so keys are integers and `<` is the comparison.
module IxNode {

  /** A record id: the page and the slot of a record (or of a child page). */
  datatype Rid = Rid(pageNo: int, slotNo: int)

  const INVALID_PAGE_ID: int := -1

  /** Strictly increasing: the keys of a node are distinct and sorted. */
  ghost predicate Increasing(s: seq<int>)
  {
    forall i, j :: 0 <= i < j < |s| ==> s[i] < s[j]
  }

  class Node {
    const pageNo: int
    /** get_max_size(): a node never holds more pairs than this. */
    const maxSize: int
    const keys: array<int>
    const rids: array<Rid>
    var numKey: int
    var isLeaf: bool
    var parent: int
    var prevLeaf: int
    var nextLeaf: int

    ghost predicate Valid()
      reads this
    {
      keys.Length == rids.Length && 0 <= numKey <= maxSize <= keys.Length
    }

    /** The keys in use. */
    ghost function Keys(): (r: seq<int>)
      requires Valid()
      reads this, keys
      ensures |r| == numKey
    {
      keys[..numKey]
    }

    /** The rids in use, slot by slot with Keys(). */
    ghost function Rids(): (r: seq<Rid>)
      requires Valid()
      reads this, rids
      ensures |r| == numKey
    {
      rids[..numKey]
    }

    ghost predicate Sorted()
      requires Valid()
      reads this, keys
    {
      Increasing(Keys())
    }

    /** A fresh, empty node page with room for `capacity` pairs. */
    constructor(pageNo: int, maxSize: nat, capacity: nat, isLeaf: bool, parent: int)
      requires maxSize <= capacity
      ensures Valid() && Sorted() && fresh(keys) && fresh(rids)
      ensures this.pageNo == pageNo && this.maxSize == maxSize && keys.Length == capacity
      ensures numKey == 0 && this.isLeaf == isLeaf && this.parent == parent
      ensures prevLeaf == INVALID_PAGE_ID && nextLeaf == INVALID_PAGE_ID
    {
      this.pageNo := pageNo;
      this.maxSize := maxSize;
      keys := new int[capacity];
      rids := new Rid[capacity];
      numKey := 0;
      this.isLeaf := isLeaf;
      this.parent := parent;
      prevLeaf := INVALID_PAGE_ID;
      nextLeaf := INVALID_PAGE_ID;
    }

    /** lower_bound: the first slot whose key is >= target (numKey if none). */
    method LowerBound(target: int) returns (r: int)
      requires Valid() && Sorted()
      ensures 0 <= r <= numKey
      ensures forall i :: 0 <= i < r ==> keys[i] < target
      ensures forall i :: r <= i < numKey ==> target <= keys[i]
    {
      var left, right := 0, numKey;
      while left < right
        invariant 0 <= left <= right <= numKey
        invariant forall i :: 0 <= i < left ==> keys[i] < target
        invariant forall i :: right <= i < numKey ==> target <= keys[i]
      {
        var mid := left + (right - left) / 2;
        if keys[mid] < target {
          left := mid + 1;
        } else {
          right := mid;
        }
      }
      r := left;
    }

    /**
     * upper_bound: 0 for an empty node; otherwise the first slot in
     * [1, numKey] whose key is > target. Slot 0 is never inspected.
     */
    method UpperBound(target: int) returns (r: int)
      requires Valid() && Sorted()
      ensures numKey == 0 ==> r == 0
      ensures numKey > 0 ==> 1 <= r <= numKey
      ensures forall i :: 1 <= i < r ==> keys[i] <= target
      ensures forall i :: r <= i < numKey && 1 <= i ==> target < keys[i]
    {
      if numKey == 0 {
        return 0;
      }
      var left, right := 1, numKey;
      while left < right
        invariant 1 <= left <= right <= numKey
        invariant forall i :: 1 <= i < left ==> keys[i] <= target
        invariant forall i :: right <= i < numKey ==> target < keys[i]
      {
        var mid := left + (right - left) / 2;
        if keys[mid] <= target {
          left := mid + 1;
        } else {
          right := mid;
        }
      }
      r := left;
    }

    /** leaf_lookup: found exactly when some key equals `key`; then its rid. */
    method LeafLookup(key: int) returns (found: bool, rid: Rid)
      requires Valid() && Sorted()
      ensures found <==> key in Keys()
      ensures found ==> exists i :: 0 <= i < numKey && keys[i] == key && rids[i] == rid
    {
      var idx := LowerBound(key);
      if idx >= numKey || keys[idx] != key {
        assert forall i :: 0 <= i < numKey ==> Keys()[i] == keys[i];
        return false, Rid(INVALID_PAGE_ID, -1);
      }
      assert Keys()[idx] == key;
      return true, rids[idx];
    }

    /**
     * internal_lookup: the child at upper_bound(key) - 1, i.e. the last slot
     * j >= 0 such that every key in slots 1..j is <= key. An internal node
     * holds at least one child.
     */
    method InternalLookup(key: int) returns (child: int, ghost j: int)
      requires Valid() && Sorted() && numKey >= 1
      ensures 0 <= j < numKey && child == rids[j].pageNo
      ensures forall i :: 1 <= i <= j ==> keys[i] <= key
      ensures j + 1 < numKey ==> key < keys[j + 1]
    {
      var idx := UpperBound(key);
      j := idx - 1;
      child := rids[idx - 1].pageNo;
    }

    /**
     * insert_pairs: puts the pairs (ks, rs) at slots [pos, pos+n) and moves
     * the old [pos, numKey) up by n. A no-op when pos < 0 or the node would
     * exceed its maximum size. Callers never pass pos > numKey.
     */
    method InsertPairs(pos: int, ks: seq<int>, rs: seq<Rid>)
      requires Valid() && pos <= numKey && |ks| == |rs|
      modifies this`numKey, keys, rids
      ensures Valid()
      ensures pos < 0 || old(numKey) + |ks| > maxSize ==>
        numKey == old(numKey) && keys[..] == old(keys[..]) && rids[..] == old(rids[..])
      ensures 0 <= pos && old(numKey) + |ks| <= maxSize ==>
        && numKey == old(numKey) + |ks|
        && keys[..] == old(keys[..pos]) + ks + old(keys[pos..numKey]) + old(keys[numKey + |ks|..])
        && rids[..] == old(rids[..pos]) + rs + old(rids[pos..numKey]) + old(rids[numKey + |ks|..])
    {
      var n := |ks|;
      if pos < 0 || numKey + n > maxSize {
        return;
      }
      InsertAt(keys, pos, numKey, ks);
      InsertAt(rids, pos, numKey, rs);
      numKey := numKey + n;
    }

    /**
     * insert: a key already present leaves the node unchanged; otherwise the
     * pair goes in at lower_bound, keeping the keys sorted. A full node is
     * left unchanged too (insert_pairs refuses). Returns the new size.
     */
    method Insert(key: int, rid: Rid) returns (size: int)
      requires Valid() && Sorted()
      modifies this`numKey, keys, rids
      ensures Valid() && Sorted() && size == numKey
      ensures key in old(Keys()) || old(numKey) == maxSize ==>
        numKey == old(numKey) && keys[..] == old(keys[..]) && rids[..] == old(rids[..])
      ensures key !in old(Keys()) && old(numKey) < maxSize ==>
        && numKey == old(numKey) + 1
        && key in Keys()
        && (exists p :: 0 <= p <= old(numKey)
              && Keys() == old(Keys()[..p]) + [key] + old(Keys()[p..])
              && Rids() == old(Rids()[..p]) + [rid] + old(Rids()[p..]))
    {
      var idx := LowerBound(key);
      if idx < numKey && keys[idx] == key {
        return numKey;
      }
      ghost var ks0, rs0 := Keys(), Rids();
      assert key !in ks0 by {
        assert forall i :: 0 <= i < numKey ==> ks0[i] == keys[i];
      }
      InsertPairs(idx, [key], [rid]);
      if numKey == old(numKey) + 1 {
        InsertedKeys(keys[..], old(keys[..]), idx, old(numKey), key);
        InsertedKeys(rids[..], old(rids[..]), idx, old(numKey), rid);
        InsertKeepsIncreasing(ks0, idx, key);
      }
      return numKey;
    }

    /**
     * erase_pair: drops the pair at pos, moving [pos+1, numKey] down by one.
     * The move reads slot numKey, so the arrays must have room beyond it.
     */
    method ErasePair(pos: int)
      requires Valid() && 0 <= pos < numKey < keys.Length
      modifies this`numKey, keys, rids
      ensures Valid() && numKey == old(numKey) - 1
      ensures keys[..] == old(keys[..pos]) + old(keys[pos + 1..numKey + 1]) + old(keys[numKey..])
      ensures rids[..] == old(rids[..pos]) + old(rids[pos + 1..numKey + 1]) + old(rids[numKey..])
    {
      ghost var k0, r0 := keys[..], rids[..];
      var i := pos;
      while i < numKey
        invariant numKey == old(numKey) && pos <= i <= numKey
        invariant forall k :: 0 <= k < pos ==> keys[k] == k0[k]
        invariant forall k :: pos <= k < i ==> keys[k] == k0[k + 1]
        invariant forall k :: i <= k < keys.Length ==> keys[k] == k0[k]
        invariant forall k :: 0 <= k < pos ==> rids[k] == r0[k]
        invariant forall k :: pos <= k < i ==> rids[k] == r0[k + 1]
        invariant forall k :: i <= k < rids.Length ==> rids[k] == r0[k]
      {
        keys[i] := keys[i + 1];
        rids[i] := rids[i + 1];
        i := i + 1;
      }
      ShiftedDown(keys[..], k0, pos, numKey);
      ShiftedDown(rids[..], r0, pos, numKey);
      numKey := numKey - 1;
    }

    /**
     * remove: erases the pair whose key equals `key`, if any; the keys stay
     * sorted. Returns the new size.
     */
    method Remove(key: int) returns (size: int)
      requires Valid() && Sorted() && numKey < keys.Length
      modifies this`numKey, keys, rids
      ensures Valid() && Sorted() && size == numKey && key !in Keys()
      ensures key !in old(Keys()) ==>
        numKey == old(numKey) && keys[..] == old(keys[..]) && rids[..] == old(rids[..])
      ensures key in old(Keys()) ==>
        && numKey == old(numKey) - 1
        && exists p :: 0 <= p < old(numKey) && old(keys[p]) == key
              && Keys() == old(Keys()[..p]) + old(Keys()[p + 1..])
              && Rids() == old(Rids()[..p]) + old(Rids()[p + 1..])
    {
      ghost var ks0 := Keys();
      var idx := LowerBound(key);
      if idx < numKey && keys[idx] == key {
        ErasePair(idx);
        ErasedKeys(keys[..], old(keys[..]), idx, old(numKey));
        ErasedKeys(rids[..], old(rids[..]), idx, old(numKey));
        EraseKeepsIncreasing(ks0, idx);
        assert ks0[idx] == key;
      } else {
        assert forall i :: 0 <= i < numKey ==> ks0[i] == keys[i];
      }
      return numKey;
    }
  }

  /**
   * insert_pairs' first loop, on one of the node's arrays: slots [pos, num)
   * move up by n, from the top down. (The source moves a key and its rid in
   * the same iteration; the two arrays are independent.)
   */
  method ShiftUp<T>(a: array<T>, pos: int, num: int, n: nat)
    requires 0 <= pos <= num && num + n <= a.Length
    modifies a
    ensures a[..] == old(a[..pos + n]) + old(a[pos..num]) + old(a[num + n..])
  {
    var i := num - pos;
    while i > 0
      invariant 0 <= i <= num - pos
      invariant forall k :: 0 <= k < pos + i + n ==> a[k] == old(a[k])
      invariant forall k :: pos + i + n <= k < num + n ==> a[k] == old(a[k - n])
      invariant forall k :: num + n <= k < a.Length ==> a[k] == old(a[k])
    {
      a[pos + i + n - 1] := a[pos + i - 1];
      i := i - 1;
    }
    ShiftedUp(a[..], old(a[..]), pos, num, n);
  }

  /** insert_pairs on one array: xs goes in at pos, the old [pos, num) moves up. */
  method InsertAt<T>(a: array<T>, pos: int, num: int, xs: seq<T>)
    requires 0 <= pos <= num && num + |xs| <= a.Length
    modifies a
    ensures a[..] == old(a[..pos]) + xs + old(a[pos..num]) + old(a[num + |xs|..])
  {
    ghost var a0 := a[..];
    ShiftUp(a, pos, num, |xs|);
    ghost var a1 := a[..];
    assert a1 == a0[..pos + |xs|] + a0[pos..num] + a0[num + |xs|..];
    CopyIn(a, pos, xs);
    assert a[..] == a1[..pos] + xs + a1[pos + |xs|..];
    SpliceAt(a0, a1, a[..], pos, num, xs);
  }

  /** insert_pairs' second loop, on one array: the new entries go to [pos, pos+|xs|). */
  method CopyIn<T>(a: array<T>, pos: int, xs: seq<T>)
    requires 0 <= pos && pos + |xs| <= a.Length
    modifies a
    ensures a[..] == old(a[..pos]) + xs + old(a[pos + |xs|..])
  {
    var j := 0;
    while j < |xs|
      invariant 0 <= j <= |xs|
      invariant forall k :: 0 <= k < pos ==> a[k] == old(a[k])
      invariant forall k :: pos <= k < pos + j ==> a[k] == xs[k - pos]
      invariant forall k :: pos + j <= k < a.Length ==> a[k] == old(a[k])
    {
      a[pos + j] := xs[j];
      j := j + 1;
    }
    assert a[..] == old(a[..pos]) + xs + old(a[pos + |xs|..]);
  }

  /** The array after insert_pairs' first loop, as a sequence. */
  lemma ShiftedUp<T>(a: seq<T>, a0: seq<T>, pos: int, num: int, n: nat)
    requires |a| == |a0| && 0 <= pos <= num && num + n <= |a|
    requires forall k :: 0 <= k < pos + n ==> a[k] == a0[k]
    requires forall k :: pos + n <= k < num + n ==> a[k] == a0[k - n]
    requires forall k :: num + n <= k < |a| ==> a[k] == a0[k]
    ensures a == a0[..pos + n] + a0[pos..num] + a0[num + n..]
  {
  }

  /** insert_pairs' two loops together: the pairs spliced in at pos. */
  lemma SpliceAt<T>(a0: seq<T>, a1: seq<T>, a2: seq<T>, pos: int, num: int, ins: seq<T>)
    requires 0 <= pos <= num && num + |ins| <= |a0|
    requires a1 == a0[..pos + |ins|] + a0[pos..num] + a0[num + |ins|..]
    requires a2 == a1[..pos] + ins + a1[pos + |ins|..]
    ensures a2 == a0[..pos] + ins + a0[pos..num] + a0[num + |ins|..]
  {
    assert a1[..pos] == a0[..pos];
    assert a1[pos + |ins|..] == a0[pos..num] + a0[num + |ins|..];
  }

  /** The array after erase_pair's loop, as a sequence. */
  lemma ShiftedDown<T>(a: seq<T>, a0: seq<T>, pos: int, num: int)
    requires |a| == |a0| && 0 <= pos <= num < |a|
    requires forall k :: 0 <= k < pos ==> a[k] == a0[k]
    requires forall k :: pos <= k < num ==> a[k] == a0[k + 1]
    requires forall k :: num <= k < |a| ==> a[k] == a0[k]
    ensures a == a0[..pos] + a0[pos + 1..num + 1] + a0[num..]
  {
  }

  /** One pair spliced in at p: the slots in use are the old ones with x at p. */
  lemma InsertedKeys<T>(a: seq<T>, a0: seq<T>, p: int, num: int, x: T)
    requires 0 <= p <= num && num + 1 <= |a0|
    requires a == a0[..p] + [x] + a0[p..num] + a0[num + 1..]
    ensures a[..num + 1] == a0[..num][..p] + [x] + a0[..num][p..]
  {
    assert a[..num + 1] == a0[..p] + [x] + a0[p..num];
  }

  /** One pair dropped at p: the slots in use are the old ones without p. */
  lemma ErasedKeys<T>(a: seq<T>, a0: seq<T>, p: int, num: int)
    requires 0 <= p < num < |a0|
    requires a == a0[..p] + a0[p + 1..num + 1] + a0[num..]
    ensures a[..num - 1] == a0[..num][..p] + a0[..num][p + 1..]
  {
    assert a[..num - 1] == a0[..p] + a0[p + 1..num];
  }

  /** Inserting x at its lower bound keeps an increasing sequence increasing. */
  lemma InsertKeepsIncreasing(s: seq<int>, p: int, x: int)
    requires Increasing(s) && 0 <= p <= |s| && x !in s
    requires forall i :: 0 <= i < p ==> s[i] < x
    requires forall i :: p <= i < |s| ==> x <= s[i]
    ensures Increasing(s[..p] + [x] + s[p..])
  {
    var t := s[..p] + [x] + s[p..];
    forall i, j | 0 <= i < j < |t|
      ensures t[i] < t[j]
    {
      if j < p || i > p {
      } else if i == p {
        assert t[j] == s[j - 1] && s[j - 1] != x;
      } else if j == p {
      } else {
        assert t[i] == s[i] && t[j] == s[j - 1];
      }
    }
  }

  /** Dropping one element keeps an increasing sequence increasing. */
  lemma EraseKeepsIncreasing(s: seq<int>, p: int)
    requires Increasing(s) && 0 <= p < |s|
    ensures Increasing(s[..p] + s[p + 1..])
    ensures s[p] !in s[..p] + s[p + 1..]
  {
    var t := s[..p] + s[p + 1..];
    forall i, j | 0 <= i < j < |t|
      ensures t[i] < t[j]
    {
      if j < p {
      } else if i < p {
        assert t[j] == s[j + 1];
      } else {
        assert t[i] == s[i + 1] && t[j] == s[j + 1];
      }
    }
    forall k | 0 <= k < |t|
      ensures t[k] != s[p]
    {
      if k < p {
        assert t[k] == s[k];
      } else {
        assert t[k] == s[k + 1];
      }
    }
  }

  /** A slice of an increasing sequence is increasing. */
  lemma SliceIncreasing(s: seq<int>, lo: int, hi: int)
    requires Increasing(s) && 0 <= lo <= hi <= |s|
    ensures Increasing(s[lo..hi])
  {
    forall i, j | 0 <= i < j < hi - lo
      ensures s[lo..hi][i] < s[lo..hi][j]
    {
      assert s[lo..hi][i] == s[lo + i] && s[lo..hi][j] == s[lo + j];
    }
  }

  /** The index file header: which page is the root. */
  class IxFileHdr {
    var rootPage: int

    constructor(rootPage: int)
      ensures this.rootPage == rootPage
    {
      this.rootPage := rootPage;
    }
  }

  /**
   * split: a fresh right sibling (page `newPageNo`) takes the pairs from slot
   * numKey/2 on, in order; the node keeps the first numKey/2. A leaf is
   * linked in between the node and its old right neighbour `next`; an inner
   * node's moved children (`children`, child i on the page of moved rid i)
   * get the new page as their parent (maintain_child).
   */
  method Split(node: Node, newPageNo: int, next: Node, children: seq<Node>) returns (right: Node)
    requires node.Valid() && node.Sorted() && next != node && node !in children
    requires node.isLeaf ==> next.pageNo == node.nextLeaf
    requires !node.isLeaf ==> MovedChildren(node.Rids()[node.numKey / 2..], children)
    modifies node`numKey, node`nextLeaf, next`prevLeaf, children`parent
    ensures fresh(right) && right.Valid() && right.Sorted() && node.Valid() && node.Sorted()
    ensures node.numKey == old(node.numKey) / 2
    ensures node.Keys() == old(node.Keys()[..node.numKey / 2])
    ensures node.Rids() == old(node.Rids()[..node.numKey / 2])
    ensures right.Keys() == old(node.Keys()[node.numKey / 2..])
    ensures right.Rids() == old(node.Rids()[node.numKey / 2..])
    ensures right.pageNo == newPageNo && right.maxSize == node.maxSize
    ensures right.isLeaf == node.isLeaf && right.parent == node.parent
    ensures node.isLeaf ==>
      && right.prevLeaf == node.pageNo && right.nextLeaf == old(node.nextLeaf)
      && node.nextLeaf == newPageNo && next.prevLeaf == newPageNo
    ensures !node.isLeaf ==> node.nextLeaf == old(node.nextLeaf) && next.prevLeaf == old(next.prevLeaf)
    ensures !node.isLeaf ==> forall i :: 0 <= i < |children| ==> children[i].parent == newPageNo
    ensures node.isLeaf ==> forall c :: c in children ==> c.parent == old(c.parent)
  {
    right := new Node(newPageNo, node.maxSize, node.keys.Length, node.isLeaf, node.parent);
    if node.isLeaf {
      LinkLeaf(node, right, next);
    }
    MoveUpperHalf(node, right);
    if !node.isLeaf {
      MaintainChildren(right, children);
    }
  }

  /** Child i of an inner node's rids `rs` is the node on page rs[i].pageNo. */
  ghost predicate MovedChildren(rs: seq<Rid>, children: seq<Node>)
  {
    |children| == |rs| && forall i :: 0 <= i < |rs| ==> children[i].pageNo == rs[i].pageNo
  }

  /** maintain_child for every pair of `right`: each child page gets `right` as its parent. */
  method MaintainChildren(right: Node, children: seq<Node>)
    requires right.Valid() && MovedChildren(right.Rids(), children)
    modifies children`parent
    ensures forall i :: 0 <= i < |children| ==> children[i].parent == right.pageNo
  {
    for i := 0 to |children|
      invariant forall k :: 0 <= k < i ==> children[k].parent == right.pageNo
    {
      children[i].parent := right.pageNo;
    }
  }

  /** split's leaf case: `right` goes between `node` and its old successor `next`. */
  method LinkLeaf(node: Node, right: Node, next: Node)
    requires node != right && next != right
    modifies node`nextLeaf, right`prevLeaf, right`nextLeaf, next`prevLeaf
    ensures right.prevLeaf == node.pageNo && right.nextLeaf == old(node.nextLeaf)
    ensures node.nextLeaf == right.pageNo && next.prevLeaf == right.pageNo
  {
    right.prevLeaf := node.pageNo;
    right.nextLeaf := node.nextLeaf;
    node.nextLeaf := right.pageNo;
    next.prevLeaf := right.pageNo;
  }

  /** split's move: the empty `right` receives node's pairs from slot numKey/2 on. */
  method MoveUpperHalf(node: Node, right: Node)
    requires node.Valid() && node.Sorted() && right.Valid() && right.numKey == 0
    requires right.maxSize == node.maxSize && right != node
    requires right.keys != node.keys && right.rids != node.rids
    modifies node`numKey, right`numKey, right.keys, right.rids
    ensures right.Valid() && right.Sorted() && node.Valid() && node.Sorted()
    ensures node.numKey == old(node.numKey) / 2
    ensures node.Keys() == old(node.Keys()[..node.numKey / 2])
    ensures node.Rids() == old(node.Rids()[..node.numKey / 2])
    ensures right.Keys() == old(node.Keys()[node.numKey / 2..])
    ensures right.Rids() == old(node.Rids()[node.numKey / 2..])
  {
    var pos := node.numKey / 2;
    ghost var ks0, rs0 := node.Keys(), node.Rids();
    right.InsertPairs(0, node.keys[pos..node.numKey], node.rids[pos..node.numKey]);
    assert right.Keys() == ks0[pos..] && right.Rids() == rs0[pos..];
    node.numKey := pos;
    assert node.Keys() == ks0[..pos];
    SliceIncreasing(ks0, pos, |ks0|);
    SliceIncreasing(ks0, 0, pos);
  }

  /**
   * adjust_root: an internal root left with one child hands the root over to
   * that child (`child`, the node on page rids[0].pageNo), which loses its
   * parent; the old root is then to be deleted. Any other root stays.
   */
  method AdjustRoot(hdr: IxFileHdr, oldRoot: Node, child: Node) returns (deleteRoot: bool)
    requires oldRoot.Valid()
    requires !oldRoot.isLeaf && oldRoot.numKey == 1 ==> child.pageNo == oldRoot.rids[0].pageNo
    modifies hdr, child`parent
    ensures deleteRoot <==> !oldRoot.isLeaf && oldRoot.numKey == 1
    ensures deleteRoot ==> hdr.rootPage == oldRoot.rids[0].pageNo && child.parent == INVALID_PAGE_ID
    ensures !deleteRoot ==> hdr.rootPage == old(hdr.rootPage) && child.parent == old(child.parent)
  {
    if !oldRoot.isLeaf && oldRoot.numKey == 1 {
      var newRoot := oldRoot.rids[0].pageNo;
      child.parent := INVALID_PAGE_ID;
      hdr.rootPage := newRoot;
      return true;
    }
    return false;
  }
}
