// The benchmark's test loop: a weighted choice of transaction kind per slot
// and a retry loop that repeats an aborted transaction until it succeeds,
// recording a latency point per attempt and a New-Order point per New-Order
// attempt. The driver's outcome and the clock are parameters: slot i aborts
// `aborts[i]` times before it succeeds, and `clock(n)` is the n-th reading.
module Tester {
  import opened Wrappers

  /** The default transaction mix: New-Order, Payment, Order-Status, Stock-Level, Delivery. */
  const DefaultMix: seq<real> := [0.45, 0.43, 0.04, 0.04, 0.04]

  /** The sum of the first i weights. */
  function Prefix(choices: seq<real>, i: nat): real
    requires i <= |choices|
  {
    if i == 0 then 0.0 else Prefix(choices, i - 1) + choices[i - 1]
  }

  function Sum(choices: seq<real>): real
  {
    Prefix(choices, |choices|)
  }

  predicate NonNegative(choices: seq<real>)
  {
    forall i :: 0 <= i < |choices| ==> choices[i] >= 0.0
  }

  /** The running total through index j, `upto + choices[j]` in the loop. */
  function RunningTotal(choices: seq<real>, j: nat): real
    requires j < |choices|
  {
    Prefix(choices, j + 1)
  }

  /** i is the first index whose running total reaches r. */
  predicate IsChoice(choices: seq<real>, r: real, i: nat)
  {
    i < |choices| && RunningTotal(choices, i) >= r
    && forall j :: 0 <= j < i ==> RunningTotal(choices, j) < r
  }

  /**
   * `get_choice` after its draw: r stands for `random.random() * sum(choices)`
   * (see ScaledDraw). None stands for the final `assert False`.
   */
  method GetChoice(choices: seq<real>, r: real) returns (res: Option<nat>)
    ensures res.Some? ==> IsChoice(choices, r, res.value)
    ensures res.None? ==> forall j :: 0 <= j < |choices| ==> RunningTotal(choices, j) < r
  {
    var upto := 0.0;
    for i := 0 to |choices|
      invariant upto == Prefix(choices, i)
      invariant forall j :: 0 <= j < i ==> RunningTotal(choices, j) < r
    {
      if upto + choices[i] >= r {
        return Some(i);
      }
      upto := upto + choices[i];
    }
    return None;
  }

  /** At most one index is the choice for a given r. */
  lemma ChoiceUnique(choices: seq<real>, r: real, i: nat, j: nat)
    requires IsChoice(choices, r, i) && IsChoice(choices, r, j)
    ensures i == j
  {
  }

  /**
   * Some index reaches any r up to the total, so for such an r the final
   * assertion is unreachable.
   */
  lemma ChoiceReachable(choices: seq<real>, r: real)
    requires |choices| > 0 && r <= Sum(choices)
    ensures exists j :: 0 <= j < |choices| && RunningTotal(choices, j) >= r
  {
    var j := |choices| - 1;
    assert RunningTotal(choices, j) == Sum(choices);
  }

  /** For non-negative weights and u = `random.random()` in [0, 1), u * sum lies in [0, sum]. */
  lemma ScaledDraw(choices: seq<real>, u: real)
    requires NonNegative(choices) && 0.0 <= u < 1.0
    ensures 0.0 <= u * Sum(choices) <= Sum(choices)
  {
    SumNonNegative(choices, |choices|);
    var s := Sum(choices);
    assert s - u * s == (1.0 - u) * s;
  }

  lemma {:induction false} SumNonNegative(choices: seq<real>, i: nat)
    requires NonNegative(choices) && i <= |choices|
    ensures Prefix(choices, i) >= 0.0
  {
    if i > 0 {
      SumNonNegative(choices, i - 1);
    }
  }

  lemma RunningTotalStep(choices: seq<real>, i: nat)
    requires 0 < i < |choices|
    ensures RunningTotal(choices, i) == RunningTotal(choices, i - 1) + choices[i]
  {
  }

  /** A zero-weight index is chosen only as index 0 with r at most 0 (r == 0 for a draw). */
  lemma ZeroWeightChoice(choices: seq<real>, r: real, i: nat)
    requires IsChoice(choices, r, i) && choices[i] == 0.0
    ensures i == 0 && r <= 0.0
  {
    if i == 0 {
      assert RunningTotal(choices, 0) == Prefix(choices, 0) + choices[0];
    } else {
      RunningTotalStep(choices, i);
    }
  }

  /** What `do_test` records through `put_new_order` and `put_txn`. */
  datatype Record = NewOrderPoint(elapsed: real) | TxnPoint(kind: nat, latency: real, ok: bool)

  /** One attempt timed from t1 to t2. */
  function AttemptLog(kind: nat, ok: bool, tStart: real, t1: real, t2: real): seq<Record>
  {
    (if kind == 0 then [NewOrderPoint(t2 - tStart)] else []) + [TxnPoint(kind, t2 - t1, ok)]
  }

  /** The first a attempts of a slot, all aborted, the first one reading the clock at c. */
  function AbortLogs(kind: nat, a: nat, tStart: real, clock: nat -> real, c: nat): seq<Record>
  {
    if a == 0 then []
    else
      var t := c + 2 * (a - 1);
      AbortLogs(kind, a - 1, tStart, clock, c) + AttemptLog(kind, false, tStart, clock(t), clock(t + 1))
  }

  /** A slot with k aborted attempts and then a successful one. */
  function SlotLog(kind: nat, k: nat, tStart: real, clock: nat -> real, c: nat): seq<Record>
  {
    var t := c + 2 * k;
    AbortLogs(kind, k, tStart, clock, c) + AttemptLog(kind, true, tStart, clock(t), clock(t + 1))
  }

  /** The clock reading slot n starts at: reading 0 is t_start, then two per attempt. */
  function FirstTick(aborts: seq<nat>, n: nat): nat
    requires n <= |aborts|
  {
    if n == 0 then 1 else FirstTick(aborts, n - 1) + 2 * (aborts[n - 1] + 1)
  }

  /** The records of the slots whose kinds are given; reading 0 is t_start. */
  function TestLog(kinds: seq<nat>, aborts: seq<nat>, clock: nat -> real): seq<Record>
    requires |kinds| <= |aborts|
  {
    if |kinds| == 0 then []
    else
      var n := |kinds| - 1;
      TestLog(kinds[..n], aborts, clock) + SlotLog(kinds[n], aborts[n], clock(0), clock, FirstTick(aborts, n))
  }

  /**
   * `do_test`: `txns` slots; each draws its kind once and retries it while the
   * driver reports ABORT. `draws[i]` is slot i's `random.random() * sum(txn_prob)`,
   * at most the sum (ScaledDraw). There are five weights, one per transaction
   * kind: a sixth kind would match no branch and its slot would never end.
   */
  method DoTest(txns: nat, probs: seq<real>, draws: seq<real>, aborts: seq<nat>, clock: nat -> real)
    returns (kinds: seq<nat>, log: seq<Record>)
    requires |probs| == 5
    requires |draws| == txns && |aborts| == txns
    requires forall i :: 0 <= i < txns ==> draws[i] <= Sum(probs)
    ensures |kinds| == txns
    ensures ChoicesOf(probs, draws, kinds)
    ensures log == TestLog(kinds, aborts, clock)
  {
    var tStart := clock(0);
    var c := 1;
    kinds := [];
    log := [];
    for i := 0 to txns
      invariant |kinds| == i && Tested(probs, draws, aborts, clock, kinds, c, log)
    {
      var kind := ChooseKind(probs, draws[i]);
      var slot := RunSlot(kind, aborts[i], tStart, clock, c);
      TestedStep(probs, draws, aborts, clock, kinds, c, log, kind);
      log := log + slot;
      c := c + 2 * (aborts[i] + 1);
      kinds := kinds + [kind];
    }
  }

  /** do_test's state after the slots of `kinds`: their choices, the next clock reading and the records so far. */
  predicate Tested(probs: seq<real>, draws: seq<real>, aborts: seq<nat>, clock: nat -> real,
                   kinds: seq<nat>, c: nat, log: seq<Record>)
  {
    && |kinds| <= |aborts| && ChoicesOf(probs, draws, kinds)
    && c == FirstTick(aborts, |kinds|) && log == TestLog(kinds, aborts, clock)
  }

  /** One more slot of do_test keeps its state in step. */
  lemma TestedStep(probs: seq<real>, draws: seq<real>, aborts: seq<nat>, clock: nat -> real,
                   kinds: seq<nat>, c: nat, log: seq<Record>, kind: nat)
    requires Tested(probs, draws, aborts, clock, kinds, c, log)
    requires |kinds| < |draws| && |kinds| < |aborts| && IsChoice(probs, draws[|kinds|], kind)
    ensures Tested(probs, draws, aborts, clock, kinds + [kind], c + 2 * (aborts[|kinds|] + 1),
                   log + SlotLog(kind, aborts[|kinds|], clock(0), clock, c))
  {
    TestLogStep(kinds, aborts, kind, clock);
    ChoicesOfStep(probs, draws, kinds, kind);
  }

  /** `txn = get_choice(txn_prob)` for a draw at most the sum: the assertion is not reached. */
  method ChooseKind(probs: seq<real>, r: real) returns (kind: nat)
    requires |probs| > 0 && r <= Sum(probs)
    ensures IsChoice(probs, r, kind)
  {
    ChoiceReachable(probs, r);
    var choice := GetChoice(probs, r);
    kind := choice.value;
  }

  /** Every kind in `kinds` is the choice for the draw of its slot. */
  predicate ChoicesOf(probs: seq<real>, draws: seq<real>, kinds: seq<nat>)
  {
    |kinds| <= |draws| && forall j :: 0 <= j < |kinds| ==> IsChoice(probs, draws[j], kinds[j])
  }

  lemma ChoicesOfStep(probs: seq<real>, draws: seq<real>, kinds: seq<nat>, kind: nat)
    requires ChoicesOf(probs, draws, kinds) && |kinds| < |draws| && IsChoice(probs, draws[|kinds|], kind)
    ensures ChoicesOf(probs, draws, kinds + [kind])
  {
    var ks := kinds + [kind];
    forall j | 0 <= j < |ks|
      ensures IsChoice(probs, draws[j], ks[j])
    {
      if j < |kinds| {
        assert ks[j] == kinds[j];
      }
    }
  }

  lemma TestLogStep(kinds: seq<nat>, aborts: seq<nat>, kind: nat, clock: nat -> real)
    requires |kinds| < |aborts|
    ensures TestLog(kinds + [kind], aborts, clock)
         == TestLog(kinds, aborts, clock) + SlotLog(kind, aborts[|kinds|], clock(0), clock, FirstTick(aborts, |kinds|))
  {
    var ks := kinds + [kind];
    assert ks[..|kinds|] == kinds;
  }

  /**
   * The retry loop of one slot: attempt a (from 0) is ABORT exactly when
   * a < k; every attempt reads the clock before and after the driver call.
   * The kind is one of the five the loop body dispatches on.
   */
  method RunSlot(kind: nat, k: nat, tStart: real, clock: nat -> real, c0: nat) returns (log: seq<Record>)
    requires kind < 5
    ensures log == SlotLog(kind, k, tStart, clock, c0)
  {
    log := [];
    var c := c0;
    var aborted := true;
    var a := 0;
    while aborted
      invariant a <= k + 1 && c == c0 + 2 * a
      invariant aborted ==> a <= k && log == AbortLogs(kind, a, tStart, clock, c0)
      invariant !aborted ==> a == k + 1 && log == SlotLog(kind, k, tStart, clock, c0)
      decreases k + 1 - a
    {
      var t1 := clock(c);
      c := c + 1;
      aborted := a < k;
      var t2 := clock(c);
      c := c + 1;
      if kind == 0 {
        log := log + [NewOrderPoint(t2 - tStart)];
      }
      log := log + [TxnPoint(kind, t2 - t1, !aborted)];
      assert log == AbortLogs(kind, a, tStart, clock, c0) + AttemptLog(kind, !aborted, tStart, t1, t2);
      a := a + 1;
    }
  }

  // ---------------------------------------------------------------------------
  // What the records say

  /** The `put_txn` records of a log, in order. */
  function Txns(log: seq<Record>): seq<Record>
  {
    if |log| == 0 then []
    else Txns(log[..|log| - 1]) + (if log[|log| - 1].TxnPoint? then [log[|log| - 1]] else [])
  }

  lemma {:induction false} TxnsConcat(a: seq<Record>, b: seq<Record>)
    ensures Txns(a + b) == Txns(a) + Txns(b)
    decreases |b|
  {
    if b == [] {
      assert a + b == a;
    } else {
      var n := |b| - 1;
      assert (a + b)[..|a + b| - 1] == a + b[..n];
      TxnsConcat(a, b[..n]);
    }
  }

  lemma AttemptTxns(kind: nat, ok: bool, tStart: real, t1: real, t2: real)
    ensures Txns(AttemptLog(kind, ok, tStart, t1, t2)) == [TxnPoint(kind, t2 - t1, ok)]
  {
    var pre: seq<Record> := if kind == 0 then [NewOrderPoint(t2 - tStart)] else [];
    TxnsConcat(pre, [TxnPoint(kind, t2 - t1, ok)]);
    assert Txns(pre) == [] by {
      if kind == 0 { assert pre[..0] == []; }
    }
    assert [TxnPoint(kind, t2 - t1, ok)][..0] == [];
  }

  /** Every record is a `put_txn` record of this kind with this outcome. */
  predicate AllTxns(ts: seq<Record>, kind: nat, ok: bool)
  {
    forall j :: 0 <= j < |ts| ==> ts[j].TxnPoint? && ts[j].kind == kind && ts[j].ok == ok
  }

  lemma AllTxnsConcat(a: seq<Record>, b: seq<Record>, kind: nat, ok: bool)
    requires AllTxns(a, kind, ok) && AllTxns(b, kind, ok)
    ensures AllTxns(a + b, kind, ok)
  {
    forall j | 0 <= j < |a + b|
      ensures (a + b)[j].TxnPoint? && (a + b)[j].kind == kind && (a + b)[j].ok == ok
    {
      if j < |a| { assert (a + b)[j] == a[j]; } else { assert (a + b)[j] == b[j - |a|]; }
    }
  }

  /** a records, all `put_txn` records of this kind marked failed. */
  predicate Aborted(ts: seq<Record>, kind: nat, a: nat)
  {
    |ts| == a && AllTxns(ts, kind, false)
  }

  lemma AbortedAppend(cur: seq<Record>, ts: seq<Record>, x: Record, kind: nat, a: nat)
    requires a > 0 && cur == ts + [x] && Aborted(ts, kind, a - 1) && x.TxnPoint? && x.kind == kind && !x.ok
    ensures Aborted(cur, kind, a)
  {
    AllTxnsConcat(ts, [x], kind, false);
  }

  lemma {:induction false} AbortTxns(kind: nat, a: nat, tStart: real, clock: nat -> real, c: nat)
    ensures Aborted(Txns(AbortLogs(kind, a, tStart, clock, c)), kind, a)
  {
    if a > 0 {
      var t := c + 2 * (a - 1);
      AbortTxns(kind, a - 1, tStart, clock, c);
      AbortStep(kind, a, tStart, clock, c);
      AbortedAppend(Txns(AbortLogs(kind, a, tStart, clock, c)), Txns(AbortLogs(kind, a - 1, tStart, clock, c)),
        TxnPoint(kind, clock(t + 1) - clock(t), false), kind, a);
    }
  }

  /** One more aborted attempt adds one False `put_txn` record. */
  lemma AbortStep(kind: nat, a: nat, tStart: real, clock: nat -> real, c: nat)
    requires a > 0
    ensures Txns(AbortLogs(kind, a, tStart, clock, c))
      == Txns(AbortLogs(kind, a - 1, tStart, clock, c)) + [TxnPoint(kind, clock(c + 2 * (a - 1) + 1) - clock(c + 2 * (a - 1)), false)]
  {
    var t := c + 2 * (a - 1);
    var prev := AbortLogs(kind, a - 1, tStart, clock, c);
    var att := AttemptLog(kind, false, tStart, clock(t), clock(t + 1));
    assert AbortLogs(kind, a, tStart, clock, c) == prev + att;
    AttemptTxns(kind, false, tStart, clock(t), clock(t + 1));
    TxnsAppend(prev, att, TxnPoint(kind, clock(t + 1) - clock(t), false));
  }

  lemma TxnsAppend(a: seq<Record>, b: seq<Record>, x: Record)
    requires Txns(b) == [x]
    ensures Txns(a + b) == Txns(a) + [x]
  {
    TxnsConcat(a, b);
  }

  /**
   * A slot with k aborts leaves k + 1 `put_txn` records of its kind: the first
   * k say False and the last says True.
   */
  lemma SlotTxns(kind: nat, k: nat, tStart: real, clock: nat -> real, c: nat)
    ensures |Txns(SlotLog(kind, k, tStart, clock, c))| == k + 1
    ensures AllTxns(Txns(SlotLog(kind, k, tStart, clock, c))[..k], kind, false)
    ensures AllTxns(Txns(SlotLog(kind, k, tStart, clock, c))[k..], kind, true)
  {
    var t := c + 2 * k;
    AbortTxns(kind, k, tStart, clock, c);
    TxnsConcat(AbortLogs(kind, k, tStart, clock, c), AttemptLog(kind, true, tStart, clock(t), clock(t + 1)));
    AttemptTxns(kind, true, tStart, clock(t), clock(t + 1));
    var ts := Txns(SlotLog(kind, k, tStart, clock, c));
    assert ts[..k] == Txns(AbortLogs(kind, k, tStart, clock, c));
  }

  /** The number of successful `put_txn` records. */
  function Successes(log: seq<Record>): nat
  {
    if |log| == 0 then 0
    else Successes(log[..|log| - 1]) + (if log[|log| - 1].TxnPoint? && log[|log| - 1].ok then 1 else 0)
  }

  lemma {:induction false} SuccessesConcat(a: seq<Record>, b: seq<Record>)
    ensures Successes(a + b) == Successes(a) + Successes(b)
    decreases |b|
  {
    if b == [] {
      assert a + b == a;
    } else {
      var n := |b| - 1;
      assert (a + b)[..|a + b| - 1] == a + b[..n];
      SuccessesConcat(a, b[..n]);
    }
  }

  lemma {:induction false} AbortSuccesses(kind: nat, a: nat, tStart: real, clock: nat -> real, c: nat)
    ensures Successes(AbortLogs(kind, a, tStart, clock, c)) == 0
  {
    if a > 0 {
      var t := c + 2 * (a - 1);
      AbortSuccesses(kind, a - 1, tStart, clock, c);
      var att := AttemptLog(kind, false, tStart, clock(t), clock(t + 1));
      SuccessesConcat(AbortLogs(kind, a - 1, tStart, clock, c), att);
      AttemptSuccesses(kind, false, tStart, clock(t), clock(t + 1));
    }
  }

  lemma AttemptSuccesses(kind: nat, ok: bool, tStart: real, t1: real, t2: real)
    ensures Successes(AttemptLog(kind, ok, tStart, t1, t2)) == if ok then 1 else 0
  {
    var pre: seq<Record> := if kind == 0 then [NewOrderPoint(t2 - tStart)] else [];
    SuccessesConcat(pre, [TxnPoint(kind, t2 - t1, ok)]);
    assert Successes(pre) == 0 by {
      if kind == 0 { assert pre[..0] == []; }
    }
    assert [TxnPoint(kind, t2 - t1, ok)][..0] == [];
  }

  /** Exactly `txns` transactions succeed: one per slot. */
  lemma {:induction false} TestSuccesses(kinds: seq<nat>, aborts: seq<nat>, clock: nat -> real)
    requires |kinds| <= |aborts|
    ensures Successes(TestLog(kinds, aborts, clock)) == |kinds|
    decreases |kinds|
  {
    if |kinds| > 0 {
      var n := |kinds| - 1;
      TestSuccesses(kinds[..n], aborts, clock);
      var slot := SlotLog(kinds[n], aborts[n], clock(0), clock, FirstTick(aborts, n));
      SuccessesConcat(TestLog(kinds[..n], aborts, clock), slot);
      SlotSuccesses(kinds[n], aborts[n], clock(0), clock, FirstTick(aborts, n));
    }
  }

  /** A slot succeeds exactly once, on its last attempt. */
  lemma SlotSuccesses(kind: nat, k: nat, tStart: real, clock: nat -> real, c: nat)
    ensures Successes(SlotLog(kind, k, tStart, clock, c)) == 1
  {
    var t := c + 2 * k;
    AbortSuccesses(kind, k, tStart, clock, c);
    SuccessesConcat(AbortLogs(kind, k, tStart, clock, c), AttemptLog(kind, true, tStart, clock(t), clock(t + 1)));
    AttemptSuccesses(kind, true, tStart, clock(t), clock(t + 1));
  }

  /** The `put_new_order` points of a log. */
  function NewOrderPoints(log: seq<Record>): nat
  {
    if |log| == 0 then 0
    else NewOrderPoints(log[..|log| - 1]) + (if log[|log| - 1].NewOrderPoint? then 1 else 0)
  }

  lemma {:induction false} NewOrderPointsConcat(a: seq<Record>, b: seq<Record>)
    ensures NewOrderPoints(a + b) == NewOrderPoints(a) + NewOrderPoints(b)
    decreases |b|
  {
    if b == [] {
      assert a + b == a;
    } else {
      var n := |b| - 1;
      assert (a + b)[..|a + b| - 1] == a + b[..n];
      NewOrderPointsConcat(a, b[..n]);
    }
  }

  lemma AttemptNewOrderPoints(kind: nat, ok: bool, tStart: real, t1: real, t2: real)
    ensures NewOrderPoints(AttemptLog(kind, ok, tStart, t1, t2)) == if kind == 0 then 1 else 0
  {
    var pre: seq<Record> := if kind == 0 then [NewOrderPoint(t2 - tStart)] else [];
    NewOrderPointsConcat(pre, [TxnPoint(kind, t2 - t1, ok)]);
    if kind == 0 { assert pre[..0] == []; }
    assert [TxnPoint(kind, t2 - t1, ok)][..0] == [];
  }

  /** Every New-Order attempt, aborted or not, leaves one `put_new_order` point. */
  lemma SlotNewOrderPoints(kind: nat, k: nat, tStart: real, clock: nat -> real, c: nat)
    ensures NewOrderPoints(SlotLog(kind, k, tStart, clock, c)) == if kind == 0 then k + 1 else 0
  {
    AbortNewOrderPoints(kind, k, tStart, clock, c);
    var t := c + 2 * k;
    NewOrderPointsConcat(AbortLogs(kind, k, tStart, clock, c), AttemptLog(kind, true, tStart, clock(t), clock(t + 1)));
    AttemptNewOrderPoints(kind, true, tStart, clock(t), clock(t + 1));
  }

  lemma {:induction false} AbortNewOrderPoints(kind: nat, a: nat, tStart: real, clock: nat -> real, c: nat)
    ensures NewOrderPoints(AbortLogs(kind, a, tStart, clock, c)) == if kind == 0 then a else 0
  {
    if a > 0 {
      var t := c + 2 * (a - 1);
      AbortNewOrderPoints(kind, a - 1, tStart, clock, c);
      NewOrderPointsConcat(AbortLogs(kind, a - 1, tStart, clock, c), AttemptLog(kind, false, tStart, clock(t), clock(t + 1)));
      AttemptNewOrderPoints(kind, false, tStart, clock(t), clock(t + 1));
    }
  }
}
