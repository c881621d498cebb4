// The TPC-C parameter generators of the benchmark client. Every random draw
// is an explicit parameter: `randrange(lo, hi)` is a value in [lo, hi) handed
// in by the caller, and a comprehension over draws is a sequence of them.
module Workload {
  import opened Wrappers
  import SqlClient

  /** The ten last-name syllables of TPC-C clause 4.3.2.3. */
  const Names: seq<string> := ["BAR", "OUGHT", "ABLE", "PRI", "PRES", "ESE", "ANTI", "CALLY", "ATION", "EING"]

  /** The run-time constant C used at load time and during the run. */
  const CLoad: nat := 117
  const CRun: nat := 191

  const Two32: nat := 0x1_0000_0000

  /**
   * Python's `|` on two non-negative integers, bit by bit from the lowest:
   * at least either operand and at most their sum.
   */
  function BitOr(a: nat, b: nat): (r: nat)
    ensures a <= r && b <= r && r <= a + b
    decreases a + b
  {
    if a == 0 && b == 0 then 0
    else 2 * BitOr(a / 2, b / 2) + (if a % 2 == 1 || b % 2 == 1 then 1 else 0)
  }

  /** An or with 0 leaves the other operand unchanged. */
  lemma {:induction false} BitOrZero(b: nat)
    ensures BitOr(0, b) == b
    decreases b
  {
    if b != 0 {
      BitOrZero(b / 2);
    }
  }

  /**
   * `NURand(A, x, y, C)` with `a = randrange(0, A)` and `b = randrange(x, y)`:
   * `((a | b) + C) % (y - x) + x`. Python's `%` by a positive number is
   * never negative, as Dafny's is.
   */
  function NURand(A: nat, x: nat, y: nat, C: nat, a: nat, b: nat): (r: nat)
    requires x < y <= Two32 && A <= Two32
    requires a < A && x <= b < y
    ensures x <= r < y
  {
    (BitOr(a, b) + C) % (y - x) + x
  }

  /** Every value of [x, y) is produced by some draw. */
  lemma NURandOnto(A: nat, x: nat, y: nat, C: nat, v: nat)
    requires x < y <= Two32 && 0 < A <= Two32 && x <= v < y
    ensures exists b :: x <= b < y && NURand(A, x, y, C, 0, b) == v
  {
    var d := Residue(v - x - x - C, y - x);
    var b := x + d;
    BitOrZero(b);
    ShiftedResidue(x, y - x, C, v - x, d);
    assert NURand(A, x, y, C, 0, b) == v;
  }

  function Residue(t: int, m: int): (d: int)
    requires m > 0
    ensures 0 <= d < m
  {
    t % m
  }

  /** With d the residue of (r - x - C), (x + d + C) % m is r. */
  lemma ShiftedResidue(x: int, m: int, C: int, r: int, d: int)
    requires m > 0 && 0 <= r < m && d == Residue(r - x - C, m)
    ensures (x + d + C) % m == r
  {
    var t := r - x - C;
    DivMod(t, m);
    var q := 0 - t / m;
    NegMul(m, t / m);
    assert x + d + C == r + m * q;
    ModShift(r, q, m);
  }

  lemma NegMul(m: int, a: int)
    ensures m * (0 - a) == 0 - m * a
  {
  }

  lemma DivMod(t: int, m: int)
    requires m > 0
    ensures t == m * (t / m) + t % m
  {
  }

  /** Adding a multiple of m does not change a residue. */
  lemma ModShift(r: int, q: int, m: int)
    requires m > 0 && 0 <= r < m
    ensures (r + m * q) % m == r
  {
    var z := r + m * q;
    var k := z / m - q;
    assert m * k == r - z % m by {
      assert m * (z / m) + z % m == z;
      assert m * k == m * (z / m) - m * q;
    }
    if k > 0 {
      MulAtLeast(m, k);
    } else if k < 0 {
      MulAtLeast(m, 0 - k);
    }
  }

  lemma MulAtLeast(m: int, k: int)
    requires m > 0 && k > 0
    ensures m * k >= m
  {
    assert m * k == m * (k - 1) + m;
  }

  /** `get_c_id`: a customer id by NURand(1023, 1, 3001). */
  function GetCId(a: nat, b: nat): (r: nat)
    requires a < 1023 && 1 <= b < 3001
    ensures 1 <= r <= 3000
  {
    NURand(1023, 1, 3001, CRun, a, b)
  }

  /** `query_cus_by`: the customer is always chosen by id. */
  function QueryCusBy(a: nat, b: nat): (r: nat)
    requires a < 1023 && 1 <= b < 3001
    ensures r == GetCId(a, b)
  {
    GetCId(a, b)
  }

  /** The three syllables for the digits of k, for 0 <= k < 1000. */
  function LastName(k: nat): (r: string)
    requires k < 1000
    ensures r == Names[k / 100] + Names[(k / 10) % 10] + Names[k % 10]
  {
    Names[k / 100] + Names[(k / 10) % 10] + Names[k % 10]
  }

  /**
   * `get_c_last` as written: a k of 1000 or more is redrawn with
   * `NURand(255, 1, 1001, C)`, which ranges over [1, 1000], so the draw 1000
   * indexes `_names[10]` and raises IndexError.
   */
  function GetCLastAsWritten(k: nat, run: bool, a: nat, b: nat): (r: Result<string, SqlClient.PyError>)
    requires k >= 1000 ==> a < 255 && 1 <= b < 1001
    ensures k < 1000 ==> r == Ok(LastName(k))
    ensures r.Err? ==> r.error == SqlClient.IndexError
  {
    var c := if run then CRun else CLoad;
    var k' := if k >= 1000 then NURand(255, 1, 1001, c, a, b) else k;
    if k' < 1000 then Ok(LastName(k')) else Err(SqlClient.IndexError)
  }

  /** The redraw that yields 1000: a = 0, b = 882 at load time. */
  lemma GetCLastAsWrittenFails(b: nat)
    requires b == 882
    ensures GetCLastAsWritten(1000, false, 0, b) == Err(SqlClient.IndexError)
  {
    LoadShiftOf882(b);
    RedrawFromZero(b, CLoad);
    RedrawOf1000Fails(1000, false, 0, b);
  }

  /** 882 shifted by the load-time C wraps to 999. */
  lemma LoadShiftOf882(b: nat)
    requires b == 882
    ensures (b + CLoad) % 1000 + 1 == 1000
  {
  }

  /** Whenever the redraw yields 1000, get_c_last raises IndexError. */
  lemma RedrawOf1000Fails(k: nat, run: bool, a: nat, b: nat)
    requires k >= 1000 && a < 255 && 1 <= b < 1001
    requires NURand(255, 1, 1001, if run then CRun else CLoad, a, b) == 1000
    ensures GetCLastAsWritten(k, run, a, b) == Err(SqlClient.IndexError)
  {
  }

  /** A redraw whose first draw is 0 is the second draw shifted by C, wrapped into [1, 1000]. */
  lemma RedrawFromZero(b: nat, c: nat)
    requires 1 <= b < 1001
    ensures NURand(255, 1, 1001, c, 0, b) == (b + c) % 1000 + 1
  {
    BitOrZero(b);
    NURandOf(255, 1, 1001, c, 0, b, b);
  }

  /** NURand in terms of the or of its two draws. */
  lemma NURandOf(A: nat, x: nat, y: nat, C: nat, a: nat, b: nat, o: nat)
    requires x < y <= Two32 && A <= Two32 && a < A && x <= b < y && BitOr(a, b) == o
    ensures NURand(A, x, y, C, a, b) == (o + C) % (y - x) + x
  {
  }

  /**
   * `get_c_last` with the redraw of TPC-C clause 2.1.6, `NURand(255, 0, 999)`,
   * that is a draw over [0, 1000).
   */
  function GetCLast(k: nat, run: bool, a: nat, b: nat): (r: string)
    requires k >= 1000 ==> a < 255 && b < 1000
    ensures k < 1000 ==> r == LastName(k)
    ensures exists j :: 0 <= j < 1000 && r == LastName(j)
  {
    var c := if run then CRun else CLoad;
    var k' := if k >= 1000 then NURand(255, 0, 1000, c, a, b) else k;
    LastName(k')
  }

  /** `get_ol_i_id`: ol_cnt item ids; with rbk == 0 the last one is the unused id 100001. */
  function GetOlIId(olCnt: nat, rbk: nat, draws: seq<(nat, nat)>): (r: seq<nat>)
    requires 5 <= olCnt < 16 && rbk < 100 && |draws| == olCnt
    requires forall i :: 0 <= i < |draws| ==> draws[i].0 < 8191 && 1 <= draws[i].1 < 100001
    ensures 5 <= |r| <= 15 && |r| == olCnt
    ensures forall i :: 0 <= i < |r| - 1 ==> 1 <= r[i] <= 100000
    ensures rbk == 0 ==> r[|r| - 1] == 100001
    ensures rbk != 0 ==> 1 <= r[|r| - 1] <= 100000
  {
    var ret := seq(olCnt, i requires 0 <= i < olCnt => NURand(8191, 1, 100001, CRun, draws[i].0, draws[i].1));
    if rbk == 0 then ret[olCnt - 1 := 100001] else ret
  }

  /**
   * `get_ol_supply_w_id`: each line is supplied by the home warehouse unless
   * its draw is 0 and scale > 1; that branch calls `random.choice` on the
   * `None` that `list.remove` returns (TypeError), after `remove` itself
   * raised ValueError if the home id is not in `range(scale)`.
   */
  function GetOlSupplyWId(home: int, scale: int, draws: seq<nat>): (r: Result<seq<int>, SqlClient.PyError>)
    requires forall i :: 0 <= i < |draws| ==> draws[i] < 100
    ensures r.Ok? <==> scale == 1 || forall i :: 0 <= i < |draws| ==> draws[i] > 0
    ensures r.Ok? ==> r.value == seq(|draws|, _ => home)
  {
    if scale == 1 || forall i :: 0 <= i < |draws| ==> draws[i] > 0 then Ok(seq(|draws|, _ => home))
    else if 0 <= home < scale then Err(SqlClient.TypeError)
    else Err(SqlClient.ValueError)
  }

  /** `get_ol_quantity(n)`: `randrange(1, 11)` is 1 plus a draw below 10. */
  function GetOlQuantity(draws: seq<nat>): (r: seq<nat>)
    requires forall i :: 0 <= i < |draws| ==> draws[i] < 10
    ensures |r| == |draws| && forall i :: 0 <= i < |r| ==> 1 <= r[i] <= 10
  {
    seq(|draws|, i requires 0 <= i < |draws| => draws[i] + 1)
  }

  /** `get_d_id`: `randrange(1, 11)`. */
  function GetDId(draw: nat): (r: nat)
    requires draw < 10
    ensures 1 <= r <= 10
  {
    draw + 1
  }

  /** `get_o_carrier_id`: `randrange(1, 11)`. */
  function GetOCarrierId(draw: nat): (r: nat)
    requires draw < 10
    ensures 1 <= r <= 10
  {
    draw + 1
  }

  /**
   * `get_c_w_id_d_id`: the customer is local unless the draw is 85 or more
   * and scale > 1; that branch fails like `get_ol_supply_w_id`'s.
   */
  function GetCWIdDId(home: int, dId: int, scale: int, draw: nat): (r: Result<(int, int), SqlClient.PyError>)
    requires draw < 100
    ensures r.Ok? <==> draw < 85 || scale == 1
    ensures r.Ok? ==> r.value == (home, dId)
  {
    if draw < 85 || scale == 1 then Ok((home, dId))
    else if 1 <= home < scale + 1 then Err(SqlClient.TypeError)
    else Err(SqlClient.ValueError)
  }

  /** With one warehouse, every order line is supplied by the home warehouse and the customer is local. */
  lemma SingleWarehouseIsLocal(home: int, dId: int, supplyDraws: seq<nat>, cDraw: nat)
    requires forall i :: 0 <= i < |supplyDraws| ==> supplyDraws[i] < 100
    requires cDraw < 100
    ensures GetOlSupplyWId(home, 1, supplyDraws) == Ok(seq(|supplyDraws|, _ => home))
    ensures GetCWIdDId(home, dId, 1, cDraw) == Ok((home, dId))
  {
  }
}
