// The lock manager (src/transaction/concurrency/lock_manager.cpp): a table
// from lock ids to request queues, multi-granularity lock modes, upgrades of
// a transaction's own request, gap checks and unlock. Waiting is modelled
// without other threads: no transaction runs during a wait, so every retry
// sees the same queue.
module Locking {
  import opened Wrappers
  import opened IxNode
  import opened Txn

  datatype LockMode = IntentionShared | IntentionExclusive | Shared | SIX | Exclusive

  datatype LockRequest = LockRequest(txnId: int, mode: LockMode, granted: bool)

  datatype LockQueue = LockQueue(requests: seq<LockRequest>, upgrading: bool)

  /**
   * isLockCompatible: may `requested` be granted next to a granted `held`?
   * IS conflicts only with X; IX goes only with IS and IX; S only with IS
   * and S; SIX only with IS; X with nothing.
   */
  function Compatible(held: LockMode, requested: LockMode): (r: bool)
  {
    match requested
    case IntentionShared => held != Exclusive
    case IntentionExclusive => held == IntentionShared || held == IntentionExclusive
    case Shared => held == IntentionShared || held == Shared
    case SIX => held == IntentionShared
    case Exclusive => false
  }

  /** Compatibility does not depend on which of the two modes was granted first. */
  lemma CompatibleSymmetric(a: LockMode, b: LockMode)
    ensures Compatible(a, b) == Compatible(b, a)
  {
  }

  /** X is compatible with nothing, and IS with everything but X. */
  lemma CompatibleExtremes(m: LockMode)
    ensures !Compatible(m, Exclusive) && !Compatible(Exclusive, m)
    ensures Compatible(m, IntentionShared) <==> m != Exclusive
  {
  }

  /** The strength order of modes: `a` covers `b` when holding a grants all that b does. */
  predicate Covers(a: LockMode, b: LockMode)
  {
    a == b || b == IntentionShared || a == Exclusive || (a == SIX && (b == Shared || b == IntentionExclusive))
  }

  /** A stronger mode conflicts with at least as much as a weaker one. */
  lemma CoversConflictsMore(a: LockMode, b: LockMode, c: LockMode)
    requires Covers(a, b) && Compatible(c, a)
    ensures Compatible(c, b)
  {
  }

  /**
   * isUpdateCompatible: the mode a held request is raised to when its
   * transaction asks for `requested` (IS+{IX,S,X} gives the request, S+X
   * and IX+X give X, S+IX and IX+S give SIX, SIX+X gives X); None when no
   * upgrade is needed or possible.
   */
  function Upgrade(held: LockMode, requested: LockMode): (r: Option<LockMode>)
  {
    match held
    case IntentionShared => if requested == IntentionShared then None else Some(requested)
    case Shared =>
      if requested == Exclusive then Some(Exclusive)
      else if requested == IntentionExclusive then Some(SIX)
      else None
    case IntentionExclusive =>
      if requested == Exclusive then Some(Exclusive)
      else if requested == Shared then Some(SIX)
      else None
    case SIX => if requested == Exclusive then Some(Exclusive) else None
    case Exclusive => None
  }

  /** An upgrade yields a mode covering both the held and the requested mode, and changes the mode. */
  lemma UpgradeDominates(held: LockMode, requested: LockMode)
    requires Upgrade(held, requested).Some?
    ensures Covers(Upgrade(held, requested).value, held) && Covers(Upgrade(held, requested).value, requested)
    ensures Upgrade(held, requested).value != held
  {
  }

  /**
   * No upgrade means the held mode already covers the request, for every
   * mode a lock call asks for (SIX is only ever reached by upgrading).
   */
  lemma NoUpgradeCovers(held: LockMode, requested: LockMode)
    requires requested != SIX && Upgrade(held, requested).None?
    ensures Covers(held, requested)
  {
  }

  /** Request i is a granted request of another transaction that conflicts with `mode`. */
  ghost predicate Conflicts(q: seq<LockRequest>, i: int, txnId: int, mode: LockMode)
    requires 0 <= i < |q|
  {
    q[i].txnId != txnId && q[i].granted && !Compatible(q[i].mode, mode)
  }

  /** No granted request of another transaction conflicts with `mode`. */
  ghost predicate QueueCompatible(q: seq<LockRequest>, txnId: int, mode: LockMode)
  {
    forall i :: 0 <= i < |q| ==> !Conflicts(q, i, txnId, mode)
  }

  /** Granted requests of different transactions are pairwise compatible. */
  ghost predicate GrantedCompatible(q: seq<LockRequest>)
  {
    forall a, b :: a in q && b in q && a.txnId != b.txnId && a.granted && b.granted ==> Compatible(a.mode, b.mode)
  }

  /** The transaction holds a granted request on the queue whose mode covers `mode`. */
  ghost predicate Holds(q: seq<LockRequest>, txnId: int, mode: LockMode)
  {
    exists i :: 0 <= i < |q| && q[i].txnId == txnId && q[i].granted && Covers(q[i].mode, mode)
  }

  /** checkQueueCompatible: true iff no granted request of another transaction conflicts. */
  method CheckQueueCompatible(q: seq<LockRequest>, txnId: int, mode: LockMode) returns (ok: bool)
    ensures ok <==> QueueCompatible(q, txnId, mode)
  {
    var i := 0;
    while i < |q|
      invariant 0 <= i <= |q|
      invariant forall k :: 0 <= k < i ==> !Conflicts(q, k, txnId, mode)
    {
      if q[i].txnId != txnId && q[i].granted {
        if !Compatible(q[i].mode, mode) {
          assert Conflicts(q, i, txnId, mode);
          return false;
        }
      }
      i := i + 1;
    }
    return true;
  }

  /**
   * checkQueueCompatible with the oldest conflicting transaction: the same
   * verdict, and `oldest` lowered to the least txn id among the conflicts.
   */
  method CheckQueueCompatibleOldest(q: seq<LockRequest>, txnId: int, mode: LockMode, oldest0: int)
    returns (ok: bool, oldest: int)
    ensures ok <==> QueueCompatible(q, txnId, mode)
    ensures oldest <= oldest0
    ensures forall i :: 0 <= i < |q| && Conflicts(q, i, txnId, mode) ==> oldest <= q[i].txnId
    ensures oldest == oldest0 || exists i :: 0 <= i < |q| && Conflicts(q, i, txnId, mode) && q[i].txnId == oldest
  {
    ok := true;
    oldest := oldest0;
    var i := 0;
    while i < |q|
      invariant 0 <= i <= |q| && oldest <= oldest0
      invariant ok <==> forall k :: 0 <= k < i ==> !Conflicts(q, k, txnId, mode)
      invariant forall k :: 0 <= k < i && Conflicts(q, k, txnId, mode) ==> oldest <= q[k].txnId
      invariant oldest == oldest0 || exists k :: 0 <= k < i && Conflicts(q, k, txnId, mode) && q[k].txnId == oldest
    {
      if q[i].txnId != txnId && q[i].granted {
        if !Compatible(q[i].mode, mode) {
          assert Conflicts(q, i, txnId, mode);
          ok := false;
          if q[i].txnId < oldest {
            oldest := q[i].txnId;
          }
        }
      }
      i := i + 1;
    }
  }

  /** The index of transaction t's first request in the queue, or -1 when it has none. */
  function OwnIndex(q: seq<LockRequest>, t: int): (i: int)
    ensures -1 <= i < |q|
    ensures i >= 0 ==> q[i].txnId == t && forall k :: 0 <= k < i ==> q[k].txnId != t
    ensures i == -1 ==> forall k :: 0 <= k < |q| ==> q[k].txnId != t
    decreases |q|
  {
    if |q| == 0 then -1
    else if q[0].txnId == t then 0
    else
      var j := OwnIndex(q[1..], t);
      if j < 0 then -1 else j + 1
  }

  /** Request i of the queue with mode m, granted or waiting; the others as they were. */
  function SetRequest(q: seq<LockRequest>, i: int, m: LockMode, granted: bool): seq<LockRequest>
    requires 0 <= i < |q|
  {
    q[i := LockRequest(q[i].txnId, m, granted)]
  }

  /**
   * What a lock call does when its transaction's own request i is on queue q
   * (checkSameTxnLockRequest), as the result r and the queue `after`. A
   * granted request that needs no upgrade is enough and nothing changes. A
   * waiting one that needs none is granted iff no other transaction's grant
   * conflicts with its mode. An upgrade while another is in progress is
   * UPGRADE_CONFLICT and the queue is untouched. Otherwise the request is
   * raised to the upgraded mode and granted iff the queue with it raised is
   * compatible; on abort it stays raised and waiting.
   */
  ghost predicate OwnOutcome(q: LockQueue, i: int, mode: LockMode, r: Result<bool, AbortReason>, after: LockQueue)
    requires 0 <= i < |q.requests|
  {
    var req := q.requests[i];
    match Upgrade(req.mode, mode)
    case None =>
      if req.granted then r == Ok(true) && after == q
      else
        && (r == Ok(true) || r == Err(DeadlockPrevention))
        && (r.Ok? <==> QueueCompatible(q.requests, req.txnId, req.mode))
        && after == LockQueue(SetRequest(q.requests, i, req.mode, r.Ok?), q.upgrading)
    case Some(m) =>
      if q.upgrading then r == Err(UpgradeConflict) && after == q
      else
        && (r == Ok(true) || r == Err(DeadlockPrevention))
        && (r.Ok? <==> QueueCompatible(SetRequest(q.requests, i, m, false), req.txnId, m))
        && after == LockQueue(SetRequest(q.requests, i, m, r.Ok?), false)
  }

  /**
   * What a lock call does when transaction t has no request on queue q: a
   * waiting request for the mode is appended and granted iff no other
   * transaction's grant conflicts with it; on abort it is left waiting.
   */
  ghost predicate NewOutcome(q: LockQueue, t: int, mode: LockMode, r: Result<bool, AbortReason>, after: LockQueue)
  {
    && (r == Ok(true) || r == Err(DeadlockPrevention))
    && (r.Ok? <==> QueueCompatible(q.requests + [LockRequest(t, mode, false)], t, mode))
    && after == LockQueue(q.requests + [LockRequest(t, mode, r.Ok?)], q.upgrading)
  }

  /** The result of a wait whose check says `ok`: granted, or aborted by DEADLOCK_PREVENTION. */
  function Verdict(ok: bool): (r: Result<bool, AbortReason>)
    ensures r.Ok? <==> ok
  {
    if ok then Ok(true) else Err(DeadlockPrevention)
  }

  /**
   * An own waiting request that needs no upgrade, checked against the
   * queue: the outcome, and a grant keeps the queue compatible and covers
   * the mode.
   */
  lemma WaitingOutcome(q: LockQueue, i: int, mode: LockMode, ok: bool)
    requires 0 <= i < |q.requests| && GrantedCompatible(q.requests) && mode != SIX
    requires Upgrade(q.requests[i].mode, mode).None? && !q.requests[i].granted
    requires ok <==> QueueCompatible(q.requests, q.requests[i].txnId, q.requests[i].mode)
    ensures OwnOutcome(q, i, mode, Verdict(ok), LockQueue(SetRequest(q.requests, i, q.requests[i].mode, ok), q.upgrading))
    ensures GrantedCompatible(SetRequest(q.requests, i, q.requests[i].mode, ok))
    ensures ok ==> Holds(SetRequest(q.requests, i, q.requests[i].mode, ok), q.requests[i].txnId, mode)
  {
    var req := q.requests[i];
    var after := SetRequest(q.requests, i, req.mode, ok);
    NoUpgradeCovers(req.mode, mode);
    if ok {
      GrantKeepsCompatible(q.requests, i);
      assert after == q.requests[i := req.(granted := true)];
      assert after[i].txnId == req.txnId && after[i].granted && Covers(after[i].mode, mode);
    } else {
      assert after == q.requests;
    }
  }

  /**
   * An own request raised to mode m by an upgrade, checked against the
   * queue with it raised: the outcome, and a grant keeps the queue
   * compatible and covers the mode.
   */
  lemma RaiseOutcome(q: LockQueue, i: int, mode: LockMode, m: LockMode, ok: bool)
    requires 0 <= i < |q.requests| && GrantedCompatible(q.requests) && !q.upgrading
    requires Upgrade(q.requests[i].mode, mode) == Some(m)
    requires ok <==> QueueCompatible(SetRequest(q.requests, i, m, false), q.requests[i].txnId, m)
    ensures OwnOutcome(q, i, mode, Verdict(ok), LockQueue(SetRequest(q.requests, i, m, ok), false))
    ensures GrantedCompatible(SetRequest(q.requests, i, m, ok))
    ensures ok ==> Holds(SetRequest(q.requests, i, m, ok), q.requests[i].txnId, mode)
  {
    var waiting := SetRequest(q.requests, i, m, false);
    var after := SetRequest(q.requests, i, m, ok);
    UpgradeDominates(q.requests[i].mode, mode);
    RaiseKeepsCompatible(q.requests, i, m);
    if ok {
      GrantKeepsCompatible(waiting, i);
      assert after == waiting[i := waiting[i].(granted := true)];
      assert after[i].txnId == q.requests[i].txnId && after[i].granted && Covers(after[i].mode, mode);
    }
  }

  /**
   * A new request appended to the queue and checked: the outcome, and a
   * grant keeps the queue compatible and holds the mode.
   */
  lemma AppendOutcome(q: LockQueue, t: int, mode: LockMode, ok: bool)
    requires GrantedCompatible(q.requests)
    requires ok <==> QueueCompatible(q.requests + [LockRequest(t, mode, false)], t, mode)
    ensures NewOutcome(q, t, mode, Verdict(ok), LockQueue(q.requests + [LockRequest(t, mode, ok)], q.upgrading))
    ensures GrantedCompatible(q.requests + [LockRequest(t, mode, ok)])
    ensures ok ==> Holds(q.requests + [LockRequest(t, mode, ok)], t, mode)
  {
    var waiting := q.requests + [LockRequest(t, mode, false)];
    var after := q.requests + [LockRequest(t, mode, ok)];
    var n := |q.requests|;
    AppendKeepsCompatible(q.requests, LockRequest(t, mode, false));
    if ok {
      GrantKeepsCompatible(waiting, n);
      assert after == waiting[n := waiting[n].(granted := true)];
      assert after[n].txnId == t && after[n].granted && Covers(after[n].mode, mode);
    }
  }

  /** The first request of transaction t in the queue, or -1. */
  method FindOwn(q: seq<LockRequest>, t: int) returns (i: int)
    ensures -1 <= i < |q|
    ensures i >= 0 ==> q[i].txnId == t && forall k :: 0 <= k < i ==> q[k].txnId != t
    ensures i == -1 ==> forall k :: 0 <= k < |q| ==> q[k].txnId != t
    ensures i == OwnIndex(q, t)
  {
    i := 0;
    while i < |q|
      invariant 0 <= i <= |q|
      invariant forall k :: 0 <= k < i ==> q[k].txnId != t
    {
      if q[i].txnId == t {
        return i;
      }
      i := i + 1;
    }
    return -1;
  }

  /**
   * Index of the first attempt in [0, maxAttempt] whose compatibility check
   * succeeds, or maxAttempt + 1 when none does: where the retry loop stops.
   */
  function FirstSuccess(checks: seq<bool>, from: nat, maxAttempt: nat): (r: nat)
    requires |checks| > maxAttempt && from <= maxAttempt + 1
    ensures from <= r <= maxAttempt + 1
    ensures r <= maxAttempt ==> checks[r]
    ensures forall i :: from <= i < r ==> !checks[i]
    decreases maxAttempt + 1 - from
  {
    if from > maxAttempt then maxAttempt + 1
    else if checks[from] then from
    else FirstSuccess(checks, from + 1, maxAttempt)
  }

  /**
   * The retry loop of every lock call as written: attempt k sees check
   * checks[k] (the queue as other transactions left it); the loop stops at
   * the first success or after maxAttempt + 1 failures, and the transaction
   * is aborted only when the counter then equals maxAttempt.
   */
  method WaitAsWritten(checks: seq<bool>, maxAttempt: nat) returns (attempts: nat, aborted: bool)
    requires |checks| > maxAttempt
    ensures attempts == FirstSuccess(checks, 0, maxAttempt)
    ensures aborted <==> attempts == maxAttempt
  {
    attempts := 0;
    while attempts <= maxAttempt
      invariant attempts <= maxAttempt + 1
      invariant FirstSuccess(checks, attempts, maxAttempt) == FirstSuccess(checks, 0, maxAttempt)
      decreases maxAttempt + 1 - attempts
    {
      if !checks[attempts] {
        attempts := attempts + 1;
      } else {
        break;
      }
    }
    aborted := attempts == maxAttempt;
  }

  /**
   * As written, a request that fails every check is not aborted: the
   * counter leaves the loop at maxAttempt + 1, and the lock is then granted.
   */
  lemma WaitAsWrittenGrantsAfterFailures(checks: seq<bool>, maxAttempt: nat)
    requires |checks| > maxAttempt
    requires forall i :: 0 <= i <= maxAttempt ==> !checks[i]
    ensures FirstSuccess(checks, 0, maxAttempt) == maxAttempt + 1
  {
  }

  /** And a request whose last allowed check succeeds is aborted: [false, false, true] with maxAttempt 2. */
  lemma WaitAsWrittenAbortsOnLateSuccess()
    ensures FirstSuccess([false, false, true], 0, 2) == 2
  {
    assert FirstSuccess([false, false, true], 2, 2) == 2;
  }

  /** The intended wait: granted iff some attempt's check succeeds. */
  function WaitGranted(checks: seq<bool>, maxAttempt: nat): (granted: bool)
    requires |checks| > maxAttempt
    ensures granted <==> exists i :: 0 <= i <= maxAttempt && checks[i]
  {
    var r := FirstSuccess(checks, 0, maxAttempt);
    assert r <= maxAttempt ==> checks[r];
    r <= maxAttempt
  }

  /** With no other thread, the queue never changes during a wait: granted iff compatible. */
  lemma WaitAloneGrantedIffCompatible(ok: bool, maxAttempt: nat)
    ensures WaitGranted(seq(maxAttempt + 1, _ => ok), maxAttempt) == ok
  {
    var checks := seq(maxAttempt + 1, _ => ok);
    if ok {
      assert checks[0];
    }
  }

  /**
   * The retry loop as written when no other transaction runs during the
   * wait, so that every attempt sees the same verdict `ok`: a failing
   * request runs the counter past MaxAttempt and is not aborted, and only
   * a first check that succeeds with MaxAttempt 0 meets the `== MaxAttempt`
   * test.
   */
  method WaitAlone(ok: bool, maxAttempt: nat) returns (aborted: bool)
    ensures aborted <==> ok && maxAttempt == 0
  {
    var checks := seq(maxAttempt + 1, _ => ok);
    var attempts;
    attempts, aborted := WaitAsWritten(checks, maxAttempt);
    if ok {
      assert checks[0];
      assert attempts == 0;
    } else {
      WaitAsWrittenGrantsAfterFailures(checks, maxAttempt);
    }
  }

  /**
   * A request granted next to a conflicting grant of another transaction,
   * as the lock procedure as written does after its wait runs out, leaves
   * the queue with two incompatible grants.
   */
  lemma GrantAsWrittenBreaksCompatible(q: seq<LockRequest>, t: int, mode: LockMode)
    requires !QueueCompatible(q, t, mode)
    ensures !GrantedCompatible(q + [LockRequest(t, mode, true)])
  {
    var i :| 0 <= i < |q| && Conflicts(q, i, t, mode);
    var q2 := q + [LockRequest(t, mode, true)];
    assert q2[i] == q[i] && q2[|q|] == LockRequest(t, mode, true);
    assert q2[i] in q2 && q2[|q|] in q2;
  }

  /** For instance: another transaction holds X and this one asks for S. */
  lemma GrantAsWrittenExample()
    ensures GrantedCompatible([LockRequest(1, Exclusive, true)])
    ensures !GrantedCompatible([LockRequest(1, Exclusive, true), LockRequest(2, Shared, true)])
  {
    var q := [LockRequest(1, Exclusive, true)];
    assert Conflicts(q, 0, 2, Shared);
    GrantAsWrittenBreaksCompatible(q, 2, Shared);
    assert q + [LockRequest(2, Shared, true)] == [LockRequest(1, Exclusive, true), LockRequest(2, Shared, true)];
  }

  /** The queue with every request of transaction t removed, the others kept in order. */
  function RemoveTxn(q: seq<LockRequest>, t: int): (r: seq<LockRequest>)
    ensures forall x :: x in r <==> x in q && x.txnId != t
  {
    if q == [] then []
    else if q[0].txnId == t then RemoveTxn(q[1..], t)
    else [q[0]] + RemoveTxn(q[1..], t)
  }

  /** Removal works piece by piece: on a concatenation it removes from each part. */
  lemma {:induction false} RemoveTxnAppend(q1: seq<LockRequest>, q2: seq<LockRequest>, t: int)
    ensures RemoveTxn(q1 + q2, t) == RemoveTxn(q1, t) + RemoveTxn(q2, t)
    decreases |q1|
  {
    if q1 != [] {
      assert (q1 + q2)[1..] == q1[1..] + q2;
      RemoveTxnAppend(q1[1..], q2, t);
    } else {
      assert q1 + q2 == q2;
    }
  }

  /** Removing from the queue keeps granted requests pairwise compatible. */
  lemma RemoveKeepsCompatible(q: seq<LockRequest>, t: int)
    requires GrantedCompatible(q)
    ensures GrantedCompatible(RemoveTxn(q, t))
  {
  }

  /**
   * Granting waiting request i, whose mode passed the queue check, keeps
   * the queue's granted requests pairwise compatible.
   */
  lemma GrantKeepsCompatible(q: seq<LockRequest>, i: int)
    requires GrantedCompatible(q) && 0 <= i < |q| && !q[i].granted
    requires QueueCompatible(q, q[i].txnId, q[i].mode)
    ensures GrantedCompatible(q[i := q[i].(granted := true)])
  {
    var q2 := q[i := q[i].(granted := true)];
    forall a, b | a in q2 && b in q2 && a.txnId != b.txnId && a.granted && b.granted
      ensures Compatible(a.mode, b.mode)
    {
      var ia :| 0 <= ia < |q2| && q2[ia] == a;
      var ib :| 0 <= ib < |q2| && q2[ib] == b;
      if ia == i {
        assert !Conflicts(q, ib, q[i].txnId, q[i].mode);
        CompatibleSymmetric(b.mode, a.mode);
      } else if ib == i {
        assert !Conflicts(q, ia, q[i].txnId, q[i].mode);
      } else {
        assert q[ia] == a && q[ib] == b;
      }
    }
  }

  /** The queue with transaction t's requests removed, by a pass over the queue. */
  method RemoveTxnLoop(q: seq<LockRequest>, t: int) returns (kept: seq<LockRequest>)
    ensures kept == RemoveTxn(q, t)
  {
    kept := [];
    var i := 0;
    while i < |q|
      invariant 0 <= i <= |q|
      invariant kept == RemoveTxn(q[..i], t)
    {
      RemoveTxnAppend(q[..i], [q[i]], t);
      assert q[..i + 1] == q[..i] + [q[i]];
      if q[i].txnId != t {
        kept := kept + [q[i]];
      }
      i := i + 1;
    }
    assert q[..i] == q;
  }

  /** Whether every request on the queue belongs to transaction t. */
  method OnlyOwn(q: seq<LockRequest>, t: int) returns (ok: bool)
    ensures ok <==> forall k :: 0 <= k < |q| ==> q[k].txnId == t
  {
    var i := 0;
    while i < |q|
      invariant 0 <= i <= |q|
      invariant forall k :: 0 <= k < i ==> q[k].txnId == t
    {
      if q[i].txnId != t {
        return false;
      }
      i := i + 1;
    }
    return true;
  }

  class LockManager {
    var lockTable: map<LockDataId, LockQueue>

    /** Every queue's granted requests are pairwise compatible. */
    ghost predicate Valid()
      reads this
    {
      forall id :: id in lockTable ==> GrantedCompatible(lockTable[id].requests)
    }

    constructor()
      ensures Valid() && lockTable == map[]
    {
      lockTable := map[];
    }

    /** lock_table_[id]: the queue for id, empty when there is none yet. */
    function Queue(id: LockDataId): (q: LockQueue)
      reads this
      ensures id !in lockTable ==> q == LockQueue([], false)
      ensures Valid() ==> GrantedCompatible(q.requests)
    {
      if id in lockTable then lockTable[id] else LockQueue([], false)
    }

    /**
     * The state check every lock call starts with: DEFAULT becomes
     * GROWING, and anything other than GROWING is refused.
     */
    method BeginLocking(txn: Transaction) returns (ok: bool)
      modifies txn`state
      ensures ok <==> old(txn.state) == Default || old(txn.state) == Growing
      ensures txn.state == if old(txn.state) == Default then Growing else old(txn.state)
    {
      if txn.state == Default {
        txn.state := Growing;
      }
      return txn.state == Growing;
    }

    /**
     * lock_shared_on_record, lock_exclusive_on_record, lock_shared_on_table,
     * lock_exclusive_on_table, lock_IS_on_table, lock_IX_on_table and
     * lock_gap_on_index: the same procedure for a lock id and a mode. A
     * transaction not GROWING (after DEFAULT becomes GROWING) gets
     * LOCK_ON_SHIRINKING. A request of its own that covers the mode is
     * enough. An upgrade while another is in progress is UPGRADE_CONFLICT.
     * Otherwise the (raised or new) request waits and is granted when no
     * other transaction's granted request conflicts, and else the
     * transaction is aborted (DEADLOCK_PREVENTION): the bounded wait the
     * retry loop is meant to be. The loop as written never reaches its
     * abort when the check keeps failing (LockAsWritten); the executors of
     * this model use this corrected procedure.
     */
    method Lock(txn: Transaction, id: LockDataId, mode: LockMode) returns (r: Result<bool, AbortReason>)
      requires Valid() && mode != SIX
      modifies this, txn`state, txn`lockSet
      ensures Valid()
      ensures r == Err(LockOnShrinking) <==> old(txn.state) != Default && old(txn.state) != Growing
      ensures r == Err(LockOnShrinking) ==>
        lockTable == old(lockTable) && txn.state == old(txn.state) && txn.lockSet == old(txn.lockSet)
      ensures r.Ok? ==> r.value && txn.state == Growing && id in lockTable && Holds(lockTable[id].requests, txn.id, mode)
      ensures r.Err? ==> r.error in {LockOnShrinking, UpgradeConflict, DeadlockPrevention}
      ensures r == Err(DeadlockPrevention) ==> txn.state == Aborted
      ensures r == Err(UpgradeConflict) ==> txn.state == Growing
      ensures forall k :: k != id ==> (k in lockTable <==> k in old(lockTable))
      ensures forall k :: k != id && k in lockTable ==> lockTable[k] == old(lockTable[k])
      ensures txn.lockSet == old(txn.lockSet) || txn.lockSet == old(txn.lockSet) + [id]
      ensures id in old(txn.lockSet) ==> txn.lockSet == old(txn.lockSet)
      ensures old(txn.state) == Default || old(txn.state) == Growing ==>
        id in lockTable &&
        var q := old(Queue(id));
        var o := OwnIndex(q.requests, txn.id);
        if o >= 0 then OwnOutcome(q, o, mode, r, lockTable[id]) else NewOutcome(q, txn.id, mode, r, lockTable[id])
    {
      var growing := BeginLocking(txn);
      if !growing {
        return Err(LockOnShrinking);
      }
      var q := Queue(id);
      var i := FindOwn(q.requests, txn.id);
      if i >= 0 {
        r := LockOwn(txn, id, mode, q, i);
      } else {
        r := LockNew(txn, id, mode, q);
      }
    }

    /** checkSameTxnLockRequest: the transaction's own request i on queue q. */
    method LockOwn(txn: Transaction, id: LockDataId, mode: LockMode, q: LockQueue, i: int)
      returns (r: Result<bool, AbortReason>)
      requires Valid() && mode != SIX && txn.state == Growing && q == Queue(id)
      requires 0 <= i < |q.requests| && q.requests[i].txnId == txn.id
      modifies this, txn`state
      ensures Valid()
      ensures r.Ok? ==> r.value && txn.state == Growing && id in lockTable && Holds(lockTable[id].requests, txn.id, mode)
      ensures r.Err? ==> r.error in {UpgradeConflict, DeadlockPrevention}
      ensures r == Err(DeadlockPrevention) ==> txn.state == Aborted
      ensures r != Err(DeadlockPrevention) ==> txn.state == Growing
      ensures id in lockTable && forall k :: k != id ==> (k in lockTable <==> k in old(lockTable))
      ensures forall k :: k != id && k in lockTable ==> lockTable[k] == old(lockTable[k])
      ensures OwnOutcome(q, i, mode, r, lockTable[id])
      ensures Upgrade(q.requests[i].mode, mode).None? && q.requests[i].granted ==> r == Ok(true) && lockTable == old(lockTable)
      ensures Upgrade(q.requests[i].mode, mode).Some? ==> (r == Err(UpgradeConflict) <==> q.upgrading)
    {
      var req := q.requests[i];
      var up := Upgrade(req.mode, mode);
      if up.None? {
        if req.granted {
          NoUpgradeCovers(req.mode, mode);
          return Ok(true);
        }
        var ok := CheckQueueCompatible(q.requests, txn.id, req.mode);
        WaitingOutcome(q, i, mode, ok);
        if !ok {
          txn.state := Aborted;
        }
        lockTable := lockTable[id := LockQueue(SetRequest(q.requests, i, req.mode, ok), q.upgrading)];
        return Verdict(ok);
      }
      if q.upgrading {
        return Err(UpgradeConflict);
      }
      var ok := CheckQueueCompatible(SetRequest(q.requests, i, up.value, false), txn.id, up.value);
      RaiseOutcome(q, i, mode, up.value, ok);
      if !ok {
        txn.state := Aborted;
      }
      lockTable := lockTable[id := LockQueue(SetRequest(q.requests, i, up.value, ok), false)];
      return Verdict(ok);
    }

    /** A transaction with no request on the queue appends one and waits on it. */
    method LockNew(txn: Transaction, id: LockDataId, mode: LockMode, q: LockQueue)
      returns (r: Result<bool, AbortReason>)
      requires Valid() && txn.state == Growing && q == Queue(id)
      requires forall k :: 0 <= k < |q.requests| ==> q.requests[k].txnId != txn.id
      modifies this, txn`state, txn`lockSet
      ensures Valid()
      ensures r.Ok? ==> r.value && txn.state == Growing && id in lockTable && Holds(lockTable[id].requests, txn.id, mode)
      ensures r.Err? ==> r == Err(DeadlockPrevention) && txn.state == Aborted
      ensures id in lockTable && forall k :: k != id ==> (k in lockTable <==> k in old(lockTable))
      ensures forall k :: k != id && k in lockTable ==> lockTable[k] == old(lockTable[k])
      ensures txn.lockSet == if id in old(txn.lockSet) then old(txn.lockSet) else old(txn.lockSet) + [id]
      ensures NewOutcome(q, txn.id, mode, r, lockTable[id])
    {
      var waiting := q.requests + [LockRequest(txn.id, mode, false)];
      if id !in txn.lockSet {
        txn.lockSet := txn.lockSet + [id];
      }
      var ok := CheckQueueCompatible(waiting, txn.id, mode);
      AppendOutcome(q, txn.id, mode, ok);
      if !ok {
        txn.state := Aborted;
      }
      lockTable := lockTable[id := LockQueue(q.requests + [LockRequest(txn.id, mode, ok)], q.upgrading)];
      return Verdict(ok);
    }

    /**
     * The lock procedure as written (lock_shared_on_record and the other
     * lock calls with checkSameTxnLockRequest): the same steps as Lock, but
     * the wait is WaitAlone, so a request that conflicts with another
     * transaction's grant is granted all the same once the retries run out.
     * Only MaxAttempt 0 aborts, and then a request that could be granted.
     */
    method LockAsWritten(txn: Transaction, id: LockDataId, mode: LockMode, maxAttempt: nat)
      returns (r: Result<bool, AbortReason>)
      requires mode != SIX
      modifies this, txn`state, txn`lockSet
      ensures r == Err(LockOnShrinking) <==> old(txn.state) != Default && old(txn.state) != Growing
      ensures r.Err? ==> r.error in {LockOnShrinking, UpgradeConflict, DeadlockPrevention}
      ensures r == Err(DeadlockPrevention) ==> maxAttempt == 0 && txn.state == Aborted
      ensures r.Ok? ==> r.value && txn.state == Growing && id in lockTable && Holds(lockTable[id].requests, txn.id, mode)
      ensures (maxAttempt > 0 && (old(txn.state) == Default || old(txn.state) == Growing)
               && forall k :: 0 <= k < |old(Queue(id)).requests| ==> old(Queue(id)).requests[k].txnId != txn.id) ==>
        r == Ok(true) && lockTable[id].requests == old(Queue(id)).requests + [LockRequest(txn.id, mode, true)]
      ensures forall k :: k != id ==> (k in lockTable <==> k in old(lockTable))
      ensures forall k :: k != id && k in lockTable ==> lockTable[k] == old(lockTable[k])
    {
      var growing := BeginLocking(txn);
      if !growing {
        return Err(LockOnShrinking);
      }
      var q := Queue(id);
      var i := FindOwn(q.requests, txn.id);
      if i >= 0 {
        r := LockOwnAsWritten(txn, id, mode, q, i, maxAttempt);
      } else {
        var req := LockRequest(txn.id, mode, false);
        var waiting := q.requests + [req];
        if id !in txn.lockSet {
          txn.lockSet := txn.lockSet + [id];
        }
        var ok := CheckQueueCompatible(waiting, txn.id, mode);
        var aborted := WaitAlone(ok, maxAttempt);
        if aborted {
          txn.state := Aborted;
          lockTable := lockTable[id := LockQueue(waiting, q.upgrading)];
          return Err(DeadlockPrevention);
        }
        var reqs := waiting[|q.requests| := req.(granted := true)];
        assert reqs == q.requests + [LockRequest(txn.id, mode, true)];
        lockTable := lockTable[id := LockQueue(reqs, q.upgrading)];
        assert reqs[|q.requests|].txnId == txn.id && Covers(reqs[|q.requests|].mode, mode);
        return Ok(true);
      }
    }

    /** checkSameTxnLockRequest as written: the own request is granted after the wait whatever the check says. */
    method LockOwnAsWritten(txn: Transaction, id: LockDataId, mode: LockMode, q: LockQueue, i: int, maxAttempt: nat)
      returns (r: Result<bool, AbortReason>)
      requires mode != SIX && txn.state == Growing && q == Queue(id)
      requires 0 <= i < |q.requests| && q.requests[i].txnId == txn.id
      modifies this, txn`state
      ensures r.Ok? ==> r.value && txn.state == Growing && id in lockTable && Holds(lockTable[id].requests, txn.id, mode)
      ensures r.Err? ==> r.error in {UpgradeConflict, DeadlockPrevention}
      ensures r == Err(DeadlockPrevention) ==> maxAttempt == 0 && txn.state == Aborted
      ensures r != Err(DeadlockPrevention) ==> txn.state == Growing
      ensures forall k :: k != id ==> (k in lockTable <==> k in old(lockTable))
      ensures forall k :: k != id && k in lockTable ==> lockTable[k] == old(lockTable[k])
    {
      var req := q.requests[i];
      var up := Upgrade(req.mode, mode);
      if up.None? {
        NoUpgradeCovers(req.mode, mode);
        if req.granted {
          lockTable := lockTable[id := q];
          return Ok(true);
        }
        var ok := CheckQueueCompatible(q.requests, txn.id, req.mode);
        var aborted := WaitAlone(ok, maxAttempt);
        if aborted {
          txn.state := Aborted;
          lockTable := lockTable[id := q];
          return Err(DeadlockPrevention);
        }
        var reqs := q.requests[i := req.(granted := true)];
        lockTable := lockTable[id := LockQueue(reqs, q.upgrading)];
        assert reqs[i].txnId == txn.id && reqs[i].granted && Covers(reqs[i].mode, mode);
        return Ok(true);
      }
      if q.upgrading {
        lockTable := lockTable[id := q];
        return Err(UpgradeConflict);
      }
      UpgradeDominates(req.mode, mode);
      var raised := LockRequest(txn.id, up.value, false);
      var waiting := q.requests[i := raised];
      var ok := CheckQueueCompatible(waiting, txn.id, up.value);
      var aborted := WaitAlone(ok, maxAttempt);
      if aborted {
        txn.state := Aborted;
        lockTable := lockTable[id := LockQueue(waiting, false)];
        return Err(DeadlockPrevention);
      }
      var reqs := waiting[i := raised.(granted := true)];
      lockTable := lockTable[id := LockQueue(reqs, false)];
      assert reqs[i].txnId == txn.id && reqs[i].granted && Covers(reqs[i].mode, mode);
      return Ok(true);
    }

    /**
     * try_lock_in_gap: after the state check, fails (DEADLOCK_PREVENTION,
     * state unchanged) when any other transaction has a request on the gap.
     */
    method TryLockInGap(txn: Transaction, rid: Rid, indexFd: int) returns (r: Result<bool, AbortReason>)
      requires Valid()
      modifies this, txn`state
      ensures Valid()
      ensures txn.state == if old(txn.state) == Default then Growing else old(txn.state)
      ensures r == Err(LockOnShrinking) <==> old(txn.state) != Default && old(txn.state) != Growing
      ensures r != Err(LockOnShrinking) ==>
        LockDataId(indexFd, rid, GapLock) in lockTable &&
        var q := lockTable[LockDataId(indexFd, rid, GapLock)].requests;
        && q == old(Queue(LockDataId(indexFd, rid, GapLock))).requests
        && (r == Ok(true) <==> forall k :: 0 <= k < |q| ==> q[k].txnId == txn.id)
        && (r.Err? ==> r.error == DeadlockPrevention)
    {
      var growing := BeginLocking(txn);
      if !growing {
        return Err(LockOnShrinking);
      }
      var id := LockDataId(indexFd, rid, GapLock);
      var q := Queue(id);
      lockTable := lockTable[id := q];
      var ok := OnlyOwn(q.requests, txn.id);
      return if ok then Ok(true) else Err(DeadlockPrevention);
    }

    /**
     * unlock: GROWING becomes SHRINKING, and every request of the
     * transaction leaves the queue, the others keeping their order.
     */
    method Unlock(txn: Transaction, id: LockDataId) returns (r: bool)
      requires Valid()
      modifies this, txn`state
      ensures Valid() && r
      ensures txn.state == if old(txn.state) == Growing then Shrinking else old(txn.state)
      ensures lockTable == old(lockTable)[id := LockQueue(RemoveTxn(old(Queue(id)).requests, txn.id), old(Queue(id)).upgrading)]
    {
      var q := Queue(id);
      if txn.state == Growing {
        txn.state := Shrinking;
      }
      var kept := RemoveTxnLoop(q.requests, txn.id);
      RemoveKeepsCompatible(q.requests, txn.id);
      lockTable := lockTable[id := LockQueue(kept, q.upgrading)];
      return true;
    }
  }

  /** Raising a request to a new mode and marking it waiting keeps the others' grants compatible. */
  lemma RaiseKeepsCompatible(q: seq<LockRequest>, i: int, m: LockMode)
    requires GrantedCompatible(q) && 0 <= i < |q|
    ensures GrantedCompatible(q[i := LockRequest(q[i].txnId, m, false)])
  {
    var q2 := q[i := LockRequest(q[i].txnId, m, false)];
    forall a | a in q2 && a.granted ensures a in q {
      var k :| 0 <= k < |q2| && q2[k] == a;
      assert k != i && q[k] == a;
    }
  }

  /** Appending a waiting request keeps the granted ones compatible. */
  lemma AppendKeepsCompatible(q: seq<LockRequest>, req: LockRequest)
    requires GrantedCompatible(q) && !req.granted
    ensures GrantedCompatible(q + [req])
  {
  }
}
