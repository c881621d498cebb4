// The hash join of src/execution/executor_hash_join.h. Each child's tuples
// are spread over 256 partitions by the low eight bits of their INT join
// value (Partition); each pair of partitions that both hold tuples is then
// joined on its own (PartitionHashJoin): a chained hash table over the left
// partition, keyed by the next two bits of the join value, probed with each
// right tuple in turn. The conditions are those of the nested-loop join:
// the column-to-column conditions over the children's columns, checked by
// the same check_cond (NestedLoopJoin.JoinHolds). The bit arithmetic of the
// source is done on 32-bit machine words (bv32).
module HashJoin {
  import opened Wrappers
  import opened Values
  import opened Catalog
  import opened ExecManager
  import opened Conditions
  import opened NestedLoopJoin
  import Disk

  /** PARTITION_NUM: how many partitions each child's tuples are spread over. */
  const PARTITION_NUM: nat := 256
  /** PARTITION_BIT: how many low bits of the join value choose the partition. */
  const PARTITION_BIT: bv32 := 8
  /** `limit` of build_hash_table: how many bits above those choose the bucket. */
  const LIMIT: bv32 := 2
  /** Partition's mask: the low PARTITION_BIT bits. */
  const PARTITION_MASK: bv32 := (1 << PARTITION_BIT) - 1
  /** The mask build_hash_table sets: the LIMIT bits just above the partition bits. */
  const BUCKET_MASK: bv32 := ((1 << LIMIT) - 1) << PARTITION_BIT

  // ---------------------------------------------------------------------
  // Hash codes.

  /**
   * The join value of a tuple is a little-endian int. On its four bytes
   * b0..b3, `& PARTITION_MASK` keeps b0, and `& BUCKET_MASK` shifted down
   * by PARTITION_BIT keeps the low two bits of b1; the hash codes below are
   * read from the field's bytes accordingly.
   */
  lemma MasksSelectBytes(b0: bv32, b1: bv32, b2: bv32, b3: bv32)
    requires b0 < 256 && b1 < 256 && b2 < 256 && b3 < 256
    ensures var w := b0 | (b1 << 8) | (b2 << 16) | (b3 << 24);
      w & PARTITION_MASK == b0 && (w & BUCKET_MASK) >> PARTITION_BIT == b1 & 3
  {
  }

  /** A tuple the hash functions can read: an INT join column inside the tuple. */
  predicate Hashable(col: ColMeta, rec: seq<byte>)
  {
    col.colType == TypeInt && Fits(col, rec)
  }

  /** Partition::get_hash_code: the join value's low eight bits, a partition number. */
  function PartitionCode(col: ColMeta, rec: seq<byte>): (c: int)
    requires Hashable(col, rec)
    ensures 0 <= c < PARTITION_NUM
  {
    FieldOf(col, rec)[0] as int
  }

  /** PartitionHashJoin::get_hash_code: bits 8 and 9 of the join value, a bucket number. */
  function BucketCode(col: ColMeta, rec: seq<byte>): (c: int)
    requires Hashable(col, rec)
    ensures 0 <= c < 4
  {
    FieldOf(col, rec)[1] as int % 4
  }

  /**
   * A pair of tuples an INT equality condition holds for has one join
   * value on both sides, so one partition and one bucket: partitioning and
   * bucketing lose no match of the join column.
   */
  lemma EqualJoinValues(c: Condition, m: map<ColKey, ColMeta>, l: seq<byte>, r: seq<byte>)
    requires JoinEvaluable(c, m, l, r) && c.op == OpEq && m[CondKey(c.lhsCol)].colType == TypeInt
    requires JoinCondHolds(c, m, l, r)
    ensures Hashable(m[CondKey(c.lhsCol)], l) && Hashable(m[CondKey(c.rhsCol)], r)
    ensures PartitionCode(m[CondKey(c.lhsCol)], l) == PartitionCode(m[CondKey(c.rhsCol)], r)
    ensures BucketCode(m[CondKey(c.lhsCol)], l) == BucketCode(m[CondKey(c.rhsCol)], r)
  {
    var f, g := FieldOf(m[CondKey(c.lhsCol)], l), FieldOf(m[CondKey(c.rhsCol)], r);
    ReadInt32Injective(f, g);
    assert f[0] == f[..4][0] == g[..4][0] == g[0];
    assert f[1] == f[..4][1] == g[..4][1] == g[1];
  }

  // ---------------------------------------------------------------------
  // The bucket count.

  /**
   * upround_power2 on a 32-bit word: 1 for 0, otherwise n - 1 with every
   * bit below its highest one set, plus one. Up to 2^31 that is the least
   * power of two at least n; above it the sum wraps to 0.
   */
  function UpRoundPower2(n: bv32): (r: bv32)
    ensures r & (r - 1) == 0
    ensures n <= 0x8000_0000 ==> r != 0 && n <= r
    ensures n <= 0x4000_0000 ==> r == 1 || r < 2 * n
  {
    if n == 0 then 1
    else
      var m0 := n - 1;
      var m1 := m0 | (m0 >> 1);
      var m2 := m1 | (m1 >> 2);
      var m3 := m2 | (m2 >> 4);
      var m4 := m3 | (m3 >> 8);
      var m5 := m4 | (m4 >> 16);
      m5 + 1
  }

  /**
   * bucket_num as written: upround_power2(left_num) >> limit, raised to
   * `2^limit` when below it; in C `^` is exclusive or and 2 ^ 2 is 0, so it
   * is never raised.
   */
  function BucketNumAsWritten(leftNum: bv32): bv32
  {
    var b := UpRoundPower2(leftNum) >> LIMIT;
    if b < (2 ^ LIMIT) then 2 ^ LIMIT else b
  }

  /**
   * As written, a left partition of one tuple gets no bucket at all and
   * one of eight tuples two, while bucket codes reach 3: hash_table[code]
   * is read and written past the calloc'ed table.
   */
  lemma BucketNumAsWrittenTooSmall()
    ensures BucketNumAsWritten(1) == 0
    ensures BucketNumAsWritten(8) == 2
    ensures BucketCode(ColMeta("t", "a", TypeInt, 4, 0, false), [0, 3, 0, 0]) == 3
  {
  }

  /**
   * bucket_num as intended: upround_power2(left_num) >> limit raised to
   * 2 to the power limit, a power of two with room for every bucket code
   * and about four left tuples per bucket.
   */
  function BucketNum(leftNum: bv32): (b: bv32)
    ensures 4 <= b && b & (b - 1) == 0
    ensures leftNum <= 0x8000_0000 ==> leftNum <= 4 * b
  {
    var b := UpRoundPower2(leftNum) >> LIMIT;
    if b < 4 then 4 else b
  }

  /** The number of buckets for a left partition of leftNum tuples. */
  function BucketCount(leftNum: nat): (b: nat)
    requires leftNum < 0x1_0000_0000
    ensures 4 <= b
  {
    BucketNum(leftNum as bv32) as nat
  }

  // ---------------------------------------------------------------------
  // Hash chains. The left tuples are numbered from 1, as the table and the
  // next array hold them; 0 ends a chain.

  /** Tuple k can be hashed, and its code is its bucket code. */
  predicate CodedAt(codes: seq<int>, col: ColMeta, recs: seq<seq<byte>>, k: nat)
    requires k < |codes| && k < |recs|
  {
    Hashable(col, recs[k]) && codes[k] == BucketCode(col, recs[k])
  }

  /** The bucket code of each tuple. */
  function BucketCodes(col: ColMeta, recs: seq<seq<byte>>): (cs: seq<int>)
    requires forall k :: 0 <= k < |recs| ==> Hashable(col, recs[k])
    ensures |cs| == |recs|
    ensures forall k :: 0 <= k < |recs| ==> CodedAt(cs, col, recs, k)
  {
    seq(|recs|, k requires 0 <= k < |recs| => BucketCode(col, recs[k]))
  }

  /** The number of the last of the first n tuples whose code is c, 0 when there is none. */
  function Head(codes: seq<int>, c: int, n: nat): (t: nat)
    requires n <= |codes|
    ensures t <= n && (t > 0 ==> codes[t - 1] == c)
    decreases n
  {
    if n == 0 then 0
    else if codes[n - 1] == c then n
    else Head(codes, c, n - 1)
  }

  /** No tuple above the head has code c. */
  lemma {:induction false} HeadIsLast(codes: seq<int>, c: int, n: nat)
    requires n <= |codes|
    ensures forall k :: Head(codes, c, n) <= k < n ==> codes[k] != c
    decreases n
  {
    if n > 0 && codes[n - 1] != c {
      HeadIsLast(codes, c, n - 1);
    }
  }

  /** The numbers of the first n tuples whose code is c, from the last down. */
  function WithCode(codes: seq<int>, c: int, n: nat): (ts: seq<nat>)
    requires n <= |codes|
    ensures forall i :: 0 <= i < |ts| ==> 0 < ts[i] <= n && codes[ts[i] - 1] == c
    decreases n
  {
    var t := Head(codes, c, n);
    if t == 0 then [] else [t] + WithCode(codes, c, t - 1)
  }

  /** Every tuple of code c among the first n is in WithCode. */
  lemma {:induction false} WithCodeComplete(codes: seq<int>, c: int, n: nat)
    requires n <= |codes|
    ensures forall k :: 0 <= k < n && codes[k] == c ==> k + 1 in WithCode(codes, c, n)
    decreases n
  {
    var t := Head(codes, c, n);
    HeadIsLast(codes, c, n);
    if t > 0 {
      WithCodeComplete(codes, c, t - 1);
      var rest := WithCode(codes, c, t - 1);
      assert WithCode(codes, c, n) == [t] + rest;
      forall k | 0 <= k < n && codes[k] == c
        ensures k + 1 in WithCode(codes, c, n)
      {
        if k + 1 < t {
          assert k + 1 in rest;
        }
      }
    }
  }

  /** The numbers in WithCode go down: the chain is walked from the last tuple to the first. */
  lemma {:induction false} WithCodeDescending(codes: seq<int>, c: int, n: nat)
    requires n <= |codes|
    ensures forall i, j :: 0 <= i < j < |WithCode(codes, c, n)| ==> WithCode(codes, c, n)[j] < WithCode(codes, c, n)[i]
    decreases n
  {
    var t := Head(codes, c, n);
    if t > 0 {
      WithCodeDescending(codes, c, t - 1);
      var ts, rest := WithCode(codes, c, n), WithCode(codes, c, t - 1);
      assert ts == [t] + rest;
      forall i, j | 0 <= i < j < |ts|
        ensures ts[j] < ts[i]
      {
        assert ts[j] == rest[j - 1];
        if i > 0 {
          assert ts[i] == rest[i - 1];
        }
      }
    }
  }

  /** A tuple numbered t heads the chain of its own code below it. */
  lemma HeadIdem(codes: seq<int>, c: int, n: nat)
    requires n <= |codes|
    ensures Head(codes, c, Head(codes, c, n)) == Head(codes, c, n)
  {
  }

  /** next[j] holds a tuple numbered at most j: following it goes down. */
  predicate ChainsDown(next: seq<int>)
  {
    forall j :: 0 <= j < |next| ==> 0 <= next[j] <= j
  }

  /** Following next from t: t, next[t-1], ... until 0. */
  function Chain(next: seq<int>, t: nat): seq<nat>
    requires ChainsDown(next) && t <= |next|
    decreases t
  {
    if t == 0 then [] else [t] + Chain(next, next[t - 1])
  }

  /** The next array build_hash_table leaves: each tuple links to the last one below it of its own code. */
  predicate NextLinks(codes: seq<int>, next: seq<int>)
  {
    && |next| == |codes|
    && forall j :: 0 <= j < |next| ==> LinkAt(codes, next, j)
  }

  /** Tuple j + 1 links to the last tuple below it of its own code. */
  predicate LinkAt(codes: seq<int>, next: seq<int>, j: nat)
    requires j < |codes| && j < |next|
  {
    next[j] == Head(codes, codes[j], j)
  }

  /** The links build_hash_table leaves go down. */
  lemma NextLinksDown(codes: seq<int>, next: seq<int>)
    requires NextLinks(codes, next)
    ensures ChainsDown(next)
  {
    forall j | 0 <= j < |next|
      ensures 0 <= next[j] <= j
    {
      assert LinkAt(codes, next, j);
    }
  }

  /**
   * Following a chain from the head of code c visits exactly the tuples
   * of code c, from the last down to the first, and stops at 0.
   */
  lemma {:induction false} ChainIsWithCode(codes: seq<int>, next: seq<int>, c: int, n: nat)
    requires NextLinks(codes, next) && ChainsDown(next) && n <= |codes|
    ensures Chain(next, Head(codes, c, n)) == WithCode(codes, c, n)
    decreases n
  {
    var t := Head(codes, c, n);
    if t > 0 {
      assert LinkAt(codes, next, t - 1);
      ChainIsWithCode(codes, next, c, t - 1);
      assert Chain(next, t) == [t] + Chain(next, next[t - 1]);
      assert WithCode(codes, c, n) == [t] + WithCode(codes, c, t - 1);
    }
  }

  // ---------------------------------------------------------------------
  // The probe order: pairs of a left tuple and a right tuple, by position.

  /**
   * The pairs the probe of right tuple r checks, walking the chain of code
   * c from t: right tuple r with each tuple numbered in WithCode.
   */
  function ChainPairs(codes: seq<int>, c: int, t: nat, r: nat): (ps: seq<Pair>)
    requires t <= |codes|
    ensures forall i :: 0 <= i < |ps| ==> ps[i].r == r && ps[i].l < t && codes[ps[i].l] == c
    decreases t
  {
    var h := Head(codes, c, t);
    if h == 0 then [] else [Pair(h - 1, r)] + ChainPairs(codes, c, h - 1, r)
  }

  /** The pairs of a chain are right tuple r with each left tuple of code c below t, last first. */
  lemma {:induction false} ChainPairsWithCode(codes: seq<int>, c: int, t: nat, r: nat)
    requires t <= |codes|
    ensures |ChainPairs(codes, c, t, r)| == |WithCode(codes, c, t)|
    ensures forall i :: 0 <= i < |WithCode(codes, c, t)| ==> ChainPairs(codes, c, t, r)[i] == Pair(WithCode(codes, c, t)[i] - 1, r)
    decreases t
  {
    var h := Head(codes, c, t);
    if h > 0 {
      ChainPairsWithCode(codes, c, h - 1, r);
    }
  }

  /** A chain's pairs: the pair with its head, then the pairs of the rest of the chain. */
  lemma ChainPairsStep(codes: seq<int>, c: int, t: nat, r: nat)
    requires 0 < t <= |codes| && codes[t - 1] == c
    ensures ChainPairs(codes, c, t, r) == [Pair(t - 1, r)] + ChainPairs(codes, c, Head(codes, c, t - 1), r)
  {
    HeadIdem(codes, c, t - 1);
  }

  /** Skipping the tuples above a chain's head leaves its pairs unchanged. */
  lemma ChainPairsHead(codes: seq<int>, c: int, n: nat, r: nat)
    requires n <= |codes|
    ensures ChainPairs(codes, c, Head(codes, c, n), r) == ChainPairs(codes, c, n, r)
  {
    HeadIdem(codes, c, n);
  }

  /** The pairs of the right tuples from `from` on, each with its whole chain. */
  function Later(codes: seq<int>, rcodes: seq<int>, from: nat): (ps: seq<Pair>)
    ensures forall i :: 0 <= i < |ps| ==> from <= ps[i].r < |rcodes| && ps[i].l < |codes|
    decreases |rcodes| - from
  {
    if from >= |rcodes| then []
    else ChainPairs(codes, rcodes[from], |codes|, from) + Later(codes, rcodes, from + 1)
  }

  /** A right tuple's whole chain pairs it with exactly the left tuples of its code. */
  lemma ChainPairsComplete(codes: seq<int>, c: int, r: nat)
    ensures forall p: Pair :: p in ChainPairs(codes, c, |codes|, r) <==> p.r == r && p.l < |codes| && codes[p.l] == c
  {
    var cp := ChainPairs(codes, c, |codes|, r);
    var ts := WithCode(codes, c, |codes|);
    WithCodeComplete(codes, c, |codes|);
    ChainPairsWithCode(codes, c, |codes|, r);
    forall p: Pair | p.r == r && p.l < |codes| && codes[p.l] == c
      ensures p in cp
    {
      var i :| 0 <= i < |ts| && ts[i] == p.l + 1;
      assert cp[i] == p;
    }
  }

  /**
   * The probe from the right tuple at `from` on checks exactly the pairs
   * whose left and right tuples share a bucket code: a right tuple there
   * with every left tuple of its code.
   */
  lemma {:induction false} LaterComplete(codes: seq<int>, rcodes: seq<int>, from: nat)
    ensures forall p: Pair :: p in Later(codes, rcodes, from) <==>
      from <= p.r < |rcodes| && p.l < |codes| && codes[p.l] == rcodes[p.r]
    decreases |rcodes| - from
  {
    if from < |rcodes| {
      LaterComplete(codes, rcodes, from + 1);
      ChainPairsComplete(codes, rcodes[from], from);
    }
  }

  /** What remains of the probe with right tuple cur at chain position t. */
  function Pending(codes: seq<int>, rcodes: seq<int>, cur: nat, t: nat): (ps: seq<Pair>)
    requires cur < |rcodes| && t <= |codes|
    ensures PairsIn(ps, |codes|, |rcodes|)
  {
    ChainPairs(codes, rcodes[cur], t, cur) + Later(codes, rcodes, cur + 1)
  }

  /**
   * One step down a chain of code c for right tuple r: its first pair is
   * the head's, and the chain goes on at the head's link, which is itself
   * the head of the rest of the chain.
   */
  lemma ChainStep(codes: seq<int>, next: seq<int>, c: int, r: nat, t: nat)
    requires NextLinks(codes, next) && 0 < t <= |codes| && Head(codes, c, t) == t
    ensures 0 <= next[t - 1] < t && Head(codes, c, next[t - 1]) == next[t - 1]
    ensures ChainPairs(codes, c, t, r) == [Pair(t - 1, r)] + ChainPairs(codes, c, next[t - 1], r)
  {
    ChainPairsStep(codes, c, t, r);
    assert LinkAt(codes, next, t - 1);
    HeadIdem(codes, c, t - 1);
  }

  /** The probe from right tuple r on starts with r at the head of its bucket. */
  lemma LaterFromHead(codes: seq<int>, rcodes: seq<int>, r: nat)
    requires r < |rcodes|
    ensures Later(codes, rcodes, r) == Pending(codes, rcodes, r, Head(codes, rcodes[r], |codes|))
  {
    ChainPairsHead(codes, rcodes[r], |codes|, r);
  }

  /** The probe order of right tuple r from t, then of the right tuples after it. */
  lemma PendingSplit(codes: seq<int>, rcodes: seq<int>, r: nat, t: nat)
    requires r < |rcodes| && t <= |codes|
    ensures Pending(codes, rcodes, r, t) == ChainPairs(codes, rcodes[r], t, r) + Later(codes, rcodes, r + 1)
  {
  }

  /** After n tuples: each bucket holds the number of the last of them with its code, 0 when there is none. */
  predicate HeadsAt(codes: seq<int>, table: seq<int>, n: nat)
    requires n <= |codes|
  {
    forall c :: 0 <= c < |table| ==> table[c] == Head(codes, c, n)
  }

  /** After n tuples: each of them links to the last tuple below it of its own code. */
  predicate LinksBelow(codes: seq<int>, next: seq<int>, n: nat)
    requires n <= |codes| && n <= |next|
  {
    forall j :: 0 <= j < n ==> LinkAt(codes, next, j)
  }

  /**
   * One step of build_hash_table: tuple i + 1 links to its bucket's head
   * and becomes the head; both facts then hold for one tuple more.
   */
  lemma InsertStep(codes: seq<int>, table: seq<int>, next: seq<int>, i: nat)
    requires i < |codes| && |next| == |codes| && 0 <= codes[i] < |table|
    requires HeadsAt(codes, table, i) && LinksBelow(codes, next, i)
    ensures HeadsAt(codes, table[codes[i] := i + 1], i + 1)
    ensures LinksBelow(codes, next[i := table[codes[i]]], i + 1)
  {
    var next' := next[i := table[codes[i]]];
    forall j | 0 <= j < i + 1
      ensures LinkAt(codes, next', j)
    {
      if j < i {
        assert LinkAt(codes, next, j);
      }
    }
  }

  /**
   * One step of the walk down the chain of code c for right tuple r at
   * tuple t: the chain goes on at t's link, and the probe of the chain
   * hits tuple t's pair when it is a hit and goes on down the chain
   * otherwise.
   */
  lemma WalkStep(hits: set<Pair>, codes: seq<int>, next: seq<int>, c: int, r: nat, t: nat)
    requires NextLinks(codes, next) && 0 < t <= |codes| && Head(codes, c, t) == t
    ensures 0 <= next[t - 1] < t && Head(codes, c, next[t - 1]) == next[t - 1]
    ensures Scan(hits, ChainPairs(codes, c, t, r)) ==
      if Pair(t - 1, r) in hits then Hit(Pair(t - 1, r), ChainPairs(codes, c, next[t - 1], r))
      else Scan(hits, ChainPairs(codes, c, next[t - 1], r))
  {
    ChainStep(codes, next, c, r, t);
    ScanCons(hits, Pair(t - 1, r), ChainPairs(codes, c, next[t - 1], r));
  }

  /**
   * The `while (target)` loop of continue_probe for right tuple r of code
   * c: down the chain from t, checking each left tuple with check_cond,
   * until one matches. It is the probe of the chain's pairs: on a match,
   * the pair is the first hit of the chain and `rest` is where the chain
   * goes on.
   */
  method WalkChain(conds: seq<Condition>, m: map<ColKey, ColMeta>, left: seq<seq<byte>>, right: seq<seq<byte>>, ghost hits: set<Pair>,
                   ghost codes: seq<int>, next: array<int>, ghost c: int, r: nat, t: nat) returns (found: bool, l: nat, rest: nat)
    requires Ready(conds, m, left, right) && HitsAre(hits, conds, m, left, right)
    requires NextLinks(codes, next[..]) && |codes| == |left| && r < |right|
    requires t <= |left| && Head(codes, c, t) == t
    ensures rest <= |left| && Head(codes, c, rest) == rest
    ensures var h := Scan(hits, ChainPairs(codes, c, t, r));
      found == h.Hit? && (found ==> h == Hit(Pair(l, r), ChainPairs(codes, c, rest, r)))
    ensures found ==> l < |left| && Matches(conds, m, left, right, Pair(l, r))
  {
    found, l, rest := false, 0, t;
    while rest != 0
      invariant rest <= |left| && Head(codes, c, rest) == rest
      invariant Scan(hits, ChainPairs(codes, c, rest, r)) == Scan(hits, ChainPairs(codes, c, t, r))
      decreases rest
    {
      l := rest - 1;
      WalkStep(hits, codes, next[..], c, r, rest);
      MatchesAt(conds, m, left, right, l, r);
      assert Pair(l, r) in hits <==> Matches(conds, m, left, right, Pair(l, r));
      var res := JoinCheckCond(conds, m, left[l], right[r]);
      rest := next[l];
      if res {
        found := true;
        return;
      }
    }
  }

  /** A new array of n zeros, as calloc returns. */
  method Zeros(n: nat) returns (a: array<int>)
    ensures fresh(a) && a.Length == n && forall i :: 0 <= i < n ==> a[i] == 0
  {
    a := new int[n](_ => 0);
  }

  /**
   * Once every tuple is in: the links go down, and the chain from each
   * bucket is exactly the tuples of its code, last first.
   */
  lemma ChainsBuilt(codes: seq<int>, table: seq<int>, next: seq<int>)
    requires 4 <= |table| && |next| == |codes|
    requires HeadsAt(codes, table, |codes|) && LinksBelow(codes, next, |codes|)
    ensures NextLinks(codes, next) && ChainsDown(next)
    ensures forall c :: 0 <= c < 4 ==> Chain(next, table[c]) == WithCode(codes, c, |codes|)
  {
    NextLinksDown(codes, next);
    forall c | 0 <= c < 4
      ensures Chain(next, table[c]) == WithCode(codes, c, |codes|)
    {
      ChainIsWithCode(codes, next, c, |codes|);
    }
  }

  /**
   * The loop of build_hash_table: BucketCount(left_num) empty buckets, then
   * each left tuple in turn links to the head of its bucket and becomes the
   * head. The chain from each bucket is then exactly the left tuples of its
   * code, last first.
   */
  method BuildChains(leftJoinCol: ColMeta, left: seq<seq<byte>>, ghost codes: seq<int>) returns (table: array<int>, next: array<int>)
    requires |left| < 0x8000_0000 && |codes| == |left|
    requires forall k :: 0 <= k < |left| ==> CodedAt(codes, leftJoinCol, left, k)
    ensures fresh(table) && fresh(next) && table != next
    ensures table.Length == BucketCount(|left|) && next.Length == |left|
    ensures HeadsAt(codes, table[..], |codes|) && NextLinks(codes, next[..]) && ChainsDown(next[..])
  {
    table := Zeros(BucketCount(|left|));
    next := Zeros(|left|);
    assert HeadsAt(codes, table[..], 0);
    var i := 0;
    while i < |left|
      invariant 0 <= i <= |left|
      invariant HeadsAt(codes, table[..], i) && LinksBelow(codes, next[..], i)
    {
      assert CodedAt(codes, leftJoinCol, left, i);
      var code := BucketCode(leftJoinCol, left[i]);
      InsertStep(codes, table[..], next[..], i);
      next[i] := table[code];
      table[code] := i + 1;
      i := i + 1;
    }
    ChainsBuilt(codes, table[..], next[..]);
  }

  /** A bucket of a built table holds the head of its code's chain. */
  lemma HeadsAtIndex(codes: seq<int>, table: seq<int>, c: int)
    requires HeadsAt(codes, table, |codes|) && 0 <= c < |table|
    ensures table[c] == Head(codes, c, |codes|)
  {
  }

  /**
   * What is left to probe with right tuple r at chain position t, given
   * the probe of the rest of that chain: its hit, with the rest of the
   * chain and the later right tuples after it, or on a miss the probe from
   * the next right tuple.
   */
  lemma PendingStep(hits: set<Pair>, codes: seq<int>, rcodes: seq<int>, r: nat, t: nat, found: bool, l: nat, rest: nat)
    requires r < |rcodes| && t <= |codes| && rest <= |codes|
    requires var h := Scan(hits, ChainPairs(codes, rcodes[r], t, r));
      found == h.Hit? && (found ==> h == Hit(Pair(l, r), ChainPairs(codes, rcodes[r], rest, r)))
    ensures found ==> Scan(hits, Pending(codes, rcodes, r, t)) == Hit(Pair(l, r), Pending(codes, rcodes, r, rest))
    ensures !found ==> Scan(hits, Pending(codes, rcodes, r, t)) == Scan(hits, Later(codes, rcodes, r + 1))
  {
    PendingSplit(codes, rcodes, r, t);
    PendingSplit(codes, rcodes, r, rest);
    ScanConcat(hits, ChainPairs(codes, rcodes[r], t, r), Later(codes, rcodes, r + 1));
  }

  /**
   * The `for` loop of continue_probe: each right tuple from `from` on, with
   * its whole chain from its bucket's head, up to the first matching pair.
   * It is the probe of Later(from): the pair found is its first hit, and
   * what is then left to probe is the rest of Later(from).
   */
  method ProbeLater(conds: seq<Condition>, m: map<ColKey, ColMeta>, left: seq<seq<byte>>, right: seq<seq<byte>>, rightJoinCol: ColMeta,
                    ghost hits: set<Pair>, ghost codes: seq<int>, ghost rcodes: seq<int>, table: array<int>, next: array<int>, from: nat)
    returns (found: bool, l: nat, r: nat, rest: nat)
    requires Ready(conds, m, left, right) && HitsAre(hits, conds, m, left, right)
    requires |codes| == |left| && |rcodes| == |right| && from <= |right|
    requires forall k :: 0 <= k < |right| ==> CodedAt(rcodes, rightJoinCol, right, k)
    requires 4 <= table.Length && HeadsAt(codes, table[..], |codes|) && NextLinks(codes, next[..])
    ensures var h := Scan(hits, Later(codes, rcodes, from));
      && found == h.Hit?
      && (found ==> from <= r < |right| && rest <= |left| && Head(codes, rcodes[r], rest) == rest
                    && h == Hit(Pair(l, r), Pending(codes, rcodes, r, rest)))
    ensures found ==> l < |left| && Matches(conds, m, left, right, Pair(l, r))
  {
    found, l, r, rest := false, 0, from, 0;
    while r < |right|
      invariant from <= r <= |right|
      invariant Scan(hits, Later(codes, rcodes, r)) == Scan(hits, Later(codes, rcodes, from))
      decreases |right| - r
    {
      assert CodedAt(rcodes, rightJoinCol, right, r);
      var code := BucketCode(rightJoinCol, right[r]);
      var head := table[code];
      HeadsAtIndex(codes, table[..], code);
      HeadIdem(codes, code, |left|);
      ChainPairsHead(codes, code, |left|, r);
      found, l, rest := WalkChain(conds, m, left, right, hits, codes, next, code, r, head);
      PendingStep(hits, codes, rcodes, r, |left|, found, l, rest);
      assert Later(codes, rcodes, r) == Pending(codes, rcodes, r, |left|);
      if found {
        return;
      }
      r := r + 1;
    }
    found := false;
  }

  /**
   * continue_probe over a built table: the rest of right tuple cur's chain
   * from t, then each later right tuple with its whole chain, up to the
   * first matching pair. It is the probe of what is left to probe: the
   * pair found is its first hit, and what is then left is the rest of it.
   */
  method Probe(conds: seq<Condition>, m: map<ColKey, ColMeta>, left: seq<seq<byte>>, right: seq<seq<byte>>, rightJoinCol: ColMeta,
               ghost hits: set<Pair>, ghost codes: seq<int>, ghost rcodes: seq<int>, table: array<int>, next: array<int>, cur: nat, t: nat)
    returns (found: bool, l: nat, r: nat, rest: nat)
    requires Ready(conds, m, left, right) && HitsAre(hits, conds, m, left, right)
    requires |codes| == |left| && |rcodes| == |right| && cur < |right| && t <= |left|
    requires forall k :: 0 <= k < |right| ==> CodedAt(rcodes, rightJoinCol, right, k)
    requires 4 <= table.Length && HeadsAt(codes, table[..], |codes|) && NextLinks(codes, next[..])
    requires Head(codes, rcodes[cur], t) == t
    ensures var h := Scan(hits, Pending(codes, rcodes, cur, t));
      && found == h.Hit?
      && (found ==> r < |right| && rest <= |left| && Head(codes, rcodes[r], rest) == rest
                    && h == Hit(Pair(l, r), Pending(codes, rcodes, r, rest)))
    ensures found ==> l < |left| && Matches(conds, m, left, right, Pair(l, r))
  {
    found, l, rest := WalkChain(conds, m, left, right, hits, codes, next, rcodes[cur], cur, t);
    PendingStep(hits, codes, rcodes, cur, t, found, l, rest);
    if found {
      r := cur;
      return;
    }
    found, l, r, rest := ProbeLater(conds, m, left, right, rightJoinCol, hits, codes, rcodes, table, next, cur + 1);
  }

  // ---------------------------------------------------------------------
  // The join of one pair of partitions.

  /** Every pair of tuples can be checked and hashed; left_num fits an int. */
  predicate JoinInputs(conds: seq<Condition>, m: map<ColKey, ColMeta>, leftJoinCol: ColMeta, rightJoinCol: ColMeta,
                       left: seq<seq<byte>>, right: seq<seq<byte>>)
  {
    && Ready(conds, m, left, right)
    && (forall k :: 0 <= k < |left| ==> Hashable(leftJoinCol, left[k]))
    && (forall k :: 0 <= k < |right| ==> Hashable(rightJoinCol, right[k]))
    && |left| < 0x8000_0000
  }

  /** The codes are those of the tuples. */
  predicate CodesOf(conds: seq<Condition>, m: map<ColKey, ColMeta>, leftJoinCol: ColMeta, rightJoinCol: ColMeta,
                    left: seq<seq<byte>>, right: seq<seq<byte>>, lcodes: seq<int>, rcodes: seq<int>)
  {
    && Ready(conds, m, left, right) && |left| < 0x8000_0000
    && |lcodes| == |left| && |rcodes| == |right|
    && (forall k :: 0 <= k < |left| ==> CodedAt(lcodes, leftJoinCol, left, k))
    && (forall k :: 0 <= k < |right| ==> CodedAt(rcodes, rightJoinCol, right, k))
  }

  /**
   * A built hash table: each bucket holds the last left tuple of its code,
   * and each left tuple links to the previous one of its code.
   */
  predicate TableOf(lcodes: seq<int>, table: seq<int>, next: seq<int>)
  {
    && 4 <= |table| && HeadsAt(lcodes, table, |lcodes|)
    && NextLinks(lcodes, next) && ChainsDown(next)
  }

  /** A probe position: right tuple cur, at a point of the chain of its code. */
  predicate ProbeAt(lcodes: seq<int>, rcodes: seq<int>, cur: nat, target: nat)
  {
    cur < |rcodes| && target <= |lcodes| && Head(lcodes, rcodes[cur], target) == target
  }

  /**
   * build_hash_table on the tuples: their codes, the table, and the first
   * probe position, at the head of the first right tuple's bucket; what is
   * then left to probe is every right tuple with its whole chain.
   */
  method BuildTable(conds: seq<Condition>, m: map<ColKey, ColMeta>, leftJoinCol: ColMeta, rightJoinCol: ColMeta,
                    left: seq<seq<byte>>, right: seq<seq<byte>>)
    returns (ghost lcodes: seq<int>, ghost rcodes: seq<int>, table: array<int>, next: array<int>, target: nat)
    requires JoinInputs(conds, m, leftJoinCol, rightJoinCol, left, right) && 0 < |right|
    ensures fresh(table) && fresh(next) && table.Length == BucketCount(|left|)
    ensures CodesOf(conds, m, leftJoinCol, rightJoinCol, left, right, lcodes, rcodes)
    ensures TableOf(lcodes, table[..], next[..]) && ProbeAt(lcodes, rcodes, 0, target)
    ensures Pending(lcodes, rcodes, 0, target) == Later(lcodes, rcodes, 0)
  {
    lcodes, rcodes := BucketCodes(leftJoinCol, left), BucketCodes(rightJoinCol, right);
    table, next := BuildChains(leftJoinCol, left, lcodes);
    assert CodedAt(rcodes, rightJoinCol, right, 0);
    var code := BucketCode(rightJoinCol, right[0]);
    target := table[code];
    HeadsAtIndex(lcodes, table[..], code);
    HeadIdem(lcodes, code, |left|);
    LaterFromHead(lcodes, rcodes, 0);
  }

  /**
   * The first probe target as written: build_hash_table reads the code of
   * the bytes just past the left partition (curr_tup has walked over every
   * left tuple), not of the first right tuple.
   */
  function FirstTargetAsWritten(lcodes: seq<int>, rightJoinCol: ColMeta, after: seq<byte>): (t: nat)
    requires Hashable(rightJoinCol, after)
    ensures t <= |lcodes|
  {
    Head(lcodes, BucketCode(rightJoinCol, after), |lcodes|)
  }

  /**
   * A left and a right tuple both holding 256 (bucket code 1), with zero
   * bytes past the left partition: as written the first target is 0, so
   * the first right tuple is checked against no left tuple, though its
   * pair with the left tuple is one the probe has to check.
   */
  lemma FirstTargetAsWrittenSkipsPair()
    ensures var col := ColMeta("t", "a", TypeInt, 4, 0, false);
      var codes := [BucketCode(col, [0, 1, 0, 0])];
      && FirstTargetAsWritten(codes, col, [0, 0, 0, 0]) == 0
      && Pending(codes, codes, 0, FirstTargetAsWritten(codes, col, [0, 0, 0, 0])) == []
      && Later(codes, codes, 0) == [Pair(0, 0)]
  {
    var col := ColMeta("t", "a", TypeInt, 4, 0, false);
    var codes := [BucketCode(col, [0, 1, 0, 0])];
    assert codes == [1];
    assert Head(codes, 1, 0) == 0;
    assert ChainPairs(codes, 1, 1, 0) == [Pair(0, 0)];
    assert Later(codes, codes, 1) == [];
  }

  /**
   * The right tuples the second phase of continue_probe reads, as written:
   * the loop counts i from context.i up to right_num - 1, but curr_tup has
   * already moved one tuple on, so step i reads right tuple i + 1.
   */
  function ProbedRightAsWritten(from: nat, rightNum: nat): (rs: seq<nat>)
    ensures |rs| == if from < rightNum then rightNum - from else 0
    decreases rightNum - from
  {
    if from >= rightNum then [] else [from + 1] + ProbedRightAsWritten(from + 1, rightNum)
  }

  /** As written, the last step reads right tuple right_num, one past the partition. */
  lemma {:induction false} ProbedRightAsWrittenOverruns(from: nat, rightNum: nat)
    requires from < rightNum
    ensures rightNum in ProbedRightAsWritten(from, rightNum)
    decreases rightNum - from
  {
    if from + 1 < rightNum {
      ProbedRightAsWrittenOverruns(from + 1, rightNum);
    }
  }

  /**
   * PartitionHashJoin: a left and a right partition, the hash table over
   * the left one, and the probe context. The tuples are given by value;
   * a matched tuple is kept as its position in its partition.
   */
  class PartitionHashJoin {
    /** fed_conds_: the join conditions. */
    const conds: seq<Condition>
    /** col_offset_map. */
    const colMap: map<ColKey, ColMeta>
    const leftJoinCol: ColMeta
    const rightJoinCol: ColMeta
    /** left_rel and right_rel: the tuples of the two partitions. */
    var left: seq<seq<byte>>
    var right: seq<seq<byte>>
    /** context.hash_table: per bucket, the number of its last left tuple (0: none). */
    var table: array<int>
    /** context.next: per left tuple, the number of the previous one in its bucket (0: none). */
    var next: array<int>
    /** context.i, with context.curr_tup: the position of the right tuple being probed. */
    var cur: nat
    /** context.target: the number of the next left tuple to check against it (0: its chain is done). */
    var target: nat
    /** context.matched_tup_left and context.matched_tup_right, as positions. */
    var matchL: nat
    var matchR: nat

    /** The bucket code of each left and each right tuple. */
    ghost var lcodes: seq<int>
    ghost var rcodes: seq<int>

    /** Every pair of tuples can be checked and hashed; left_num fits an int. */
    ghost predicate Joinable()
      reads this`left, this`right
    {
      JoinInputs(conds, colMap, leftJoinCol, rightJoinCol, left, right)
    }

    /** The codes are those of the tuples. */
    ghost predicate Coded()
      reads this`left, this`right, this`lcodes, this`rcodes
    {
      CodesOf(conds, colMap, leftJoinCol, rightJoinCol, left, right, lcodes, rcodes)
    }

    /** After build_hash_table: the table and the links over the left tuples' codes. */
    ghost predicate Built()
      reads this`lcodes, this`table, this`next, table, next
    {
      TableOf(lcodes, table[..], next[..])
    }

    /** While probing: the right tuple cur, at a point of its chain. */
    ghost predicate Probing()
      reads this`lcodes, this`rcodes, this`cur, this`target
    {
      ProbeAt(lcodes, rcodes, cur, target)
    }

    /** The pairs the probe has still to check, in the order it checks them. */
    ghost function ToProbe(): seq<Pair>
      reads this`lcodes, this`rcodes, this`cur, this`target
      requires Probing()
    {
      Pending(lcodes, rcodes, cur, target)
    }

    /** The probe stopped at a pair of the two partitions that check_cond accepts. */
    ghost predicate AtHit()
      reads this`left, this`right, this`matchL, this`matchR
      requires Ready(conds, colMap, left, right)
    {
      matchL < |left| && matchR < |right| && Matches(conds, colMap, left, right, Pair(matchL, matchR))
    }

    /** No pair left to probe is one check_cond accepts. */
    ghost predicate ProbedThrough()
      reads this`left, this`right, this`lcodes, this`rcodes, this`cur, this`target
      requires Ready(conds, colMap, left, right) && Probing()
    {
      Scan(Hits(conds, colMap, left, right), ToProbe()) == Miss
    }

    /** The constructor: no table yet, the probe at the first right tuple. */
    constructor(conds: seq<Condition>, colMap: map<ColKey, ColMeta>, left: seq<seq<byte>>, leftJoinCol: ColMeta,
                right: seq<seq<byte>>, rightJoinCol: ColMeta)
      ensures this.conds == conds && this.colMap == colMap
      ensures this.left == left && this.right == right
      ensures this.leftJoinCol == leftJoinCol && this.rightJoinCol == rightJoinCol
      ensures table.Length == 0 && next.Length == 0
      ensures cur == 0 && target == 0 && matchL == 0 && matchR == 0
    {
      this.conds := conds;
      this.colMap := colMap;
      this.left := left;
      this.right := right;
      this.leftJoinCol := leftJoinCol;
      this.rightJoinCol := rightJoinCol;
      table := new int[0];
      next := new int[0];
      cur, target, matchL, matchR := 0, 0, 0, 0;
    }

    /** update_next_partition: the next pair of partitions, the context reset. */
    method UpdateNextPartition(newLeft: seq<seq<byte>>, newRight: seq<seq<byte>>)
      modifies this`left, this`right, this`table, this`next, this`cur, this`target, this`matchL, this`matchR
      ensures left == newLeft && right == newRight
      ensures fresh(table) && fresh(next) && table.Length == 0 && next.Length == 0
      ensures cur == 0 && target == 0 && matchL == 0 && matchR == 0
    {
      left, right := newLeft, newRight;
      table := new int[0];
      next := new int[0];
      cur, target, matchL, matchR := 0, 0, 0, 0;
    }

    /**
     * build_hash_table: BucketNum buckets; each left tuple in turn links to
     * its bucket's previous head and becomes the head. The first probe then
     * starts at the head of the first right tuple's bucket, so what is left
     * to probe is every right tuple with its whole chain.
     */
    method BuildHashTable()
      requires Joinable() && 0 < |right| && cur == 0
      modifies this`table, this`next, this`target, this`lcodes, this`rcodes
      ensures Coded() && Built() && Probing() && fresh(table) && fresh(next)
      ensures ToProbe() == Later(lcodes, rcodes, 0)
    {
      lcodes, rcodes, table, next, target := BuildTable(conds, colMap, leftJoinCol, rightJoinCol, left, right);
    }

    /**
     * continue_probe: the rest of the current chain, then each later right
     * tuple with its whole chain, up to the first matching pair. It finds
     * the first matching pair of those left to probe, and what is left
     * after it is the rest of them.
     */
    method ContinueProbe() returns (found: bool)
      requires Coded() && Built() && Probing()
      modifies this`cur, this`target, this`matchL, this`matchR
      ensures Probing()
      ensures var h := Scan(Hits(conds, colMap, left, right), old(ToProbe()));
        && found == h.Hit?
        && (found ==> h == Hit(Pair(matchL, matchR), ToProbe()))
        && (!found ==> cur == old(cur) && target == old(target))
      ensures found ==> AtHit()
      ensures !found ==> ProbedThrough()
    {
      ghost var hits := Hits(conds, colMap, left, right);
      var l, r, t;
      found, l, r, t := Probe(conds, colMap, left, right, rightJoinCol, hits, lcodes, rcodes, table, next, cur, target);
      if found {
        cur, target, matchL, matchR := r, t, l, r;
      }
    }
  }
}
