/**
 * The progress-report schedule of the training loop. The loop keeps a
 * `double step`, starts it at 0 and adds 0.25 whenever a report fires, so
 * `step` is always `q / 4` for the number `q` of reports so far; every
 * quantity is stated on that quarter counter `q`. With `step == q / 4`,
 * `Math.floor(step)` is `q / 4` and `Math.floor(step / 3)` is `q / 12`.
 */
module ReportSchedule {
  import opened JavaArith

  /** The array `bumps` of the training loop. */
  const BUMPS: seq<nat> := [1, 2, 5]

  /** `(int) Math.floor(step)`. */
  function Block(q: nat): nat {
    q / 4
  }

  /** `Math.floor(step / bumps.length)`. */
  function Decade(q: nat): nat {
    q / 12
  }

  /** `bumps[(int) Math.floor(step) % bumps.length]`. */
  function Bump(q: nat): (b: int)
    ensures b == 1 || b == 2 || b == 5
  {
    BUMPS[Rem(Block(q), |BUMPS|)]
  }

  /** `(int) Math.pow(10, Math.floor(step / bumps.length))`: the cast saturates at `Integer.MAX_VALUE`. */
  function Scale(q: nat): (s: int)
    ensures 1 <= s <= INT_MAX
    ensures s <= 1_000_000_000 || s == INT_MAX
  {
    PowerOfTenBelowIntMax(Decade(q));
    SaturatedInt(Pow10(Decade(q)))
  }

  lemma PowerOfTenBelowIntMax(e: nat)
    ensures Pow10(e) <= 1_000_000_000 || Pow10(e) > INT_MAX
  {
    if e <= 9 {
      Pow10Monotone(e, 9);
      assert Pow10(9) == 1_000_000_000;
    } else {
      Pow10Monotone(10, e);
      assert Pow10(10) == 10_000_000_000;
    }
  }

  /**
   * `bump * scale`, an `int` product, so it wraps around. It is never zero,
   * so `k % (bump * scale)` never throws.
   */
  function Interval(q: nat): (m: int)
    ensures m != 0
  {
    var b, s := Bump(q), Scale(q);
    Wrap32(b * s)
  }

  /** The interval as the schedule intends it, without 32-bit arithmetic. */
  function IdealInterval(q: nat): nat {
    BUMPS[Block(q) % 3] * Pow10(Decade(q))
  }

  /** Whether the report fires once `k` examples have been seen and `q` reports have fired. */
  predicate Fires(k: nat, q: nat) {
    Rem(k, Interval(q)) == 0
  }

  /** A report fires exactly when `k` is a multiple of the interval. */
  lemma FiresIffMultiple(k: nat, q: nat)
    ensures Fires(k, q) <==> k % Abs(Interval(q)) == 0
  {
    RemOfNatural(k, Interval(q));
  }

  /** Up to 116 reports the `int` arithmetic is exact and the interval is at least 1. */
  lemma IntervalExact(q: nat)
    requires q < 116
    ensures IdealInterval(q) <= INT_MAX
    ensures Interval(q) == IdealInterval(q) >= 1
  {
    if Decade(q) == 9 {
      assert Pow10(9) == 1_000_000_000;
      assert Block(q) == 27 || Block(q) == 28;
    } else {
      Pow10Monotone(Decade(q), 8);
      assert Pow10(8) == 100_000_000;
    }
    RemOfNatural(Block(q), 3);
  }

  /** The 117th report would use a wrapped-around interval (5 * 10^9 does not fit in an `int`). */
  lemma IntervalWrapsAt116()
    ensures IdealInterval(116) == 5_000_000_000
    ensures Interval(116) == 705_032_704
  {
    assert Pow10(9) == 1_000_000_000;
  }

  /** The interval depends on the block `floor(step)` only: each value serves four consecutive reports. */
  lemma IntervalPerBlock(q: nat)
    ensures Interval(q) == Interval(4 * Block(q))
    ensures IdealInterval(q) == IdealInterval(4 * Block(q))
  {
    assert Block(4 * Block(q)) == Block(q);
    assert Decade(4 * Block(q)) == Decade(q);
  }

  /** From one block to the next the intended interval grows strictly: 1, 2, 5, 10, 20, 50, ... */
  lemma IdealIntervalGrowsPerBlock(b: nat)
    ensures IdealInterval(4 * b) < IdealInterval(4 * (b + 1))
  {
    var e := Decade(4 * b);
    assert Block(4 * b) == b && Block(4 * (b + 1)) == b + 1;
    assert e == b / 3;
    if b % 3 == 2 {
      assert Decade(4 * (b + 1)) == e + 1;
    } else {
      assert Decade(4 * (b + 1)) == e;
    }
  }

  /** The intended interval never shrinks as reports fire. */
  lemma {:induction false} IdealIntervalMonotone(q1: nat, q2: nat)
    requires q1 <= q2
    ensures IdealInterval(q1) <= IdealInterval(q2)
    decreases q2 - q1
  {
    if q1 < q2 {
      IdealIntervalMonotone(q1 + 1, q2);
      IntervalPerBlock(q1);
      IntervalPerBlock(q1 + 1);
      if Block(q1 + 1) != Block(q1) {
        assert Block(q1 + 1) == Block(q1) + 1;
        IdealIntervalGrowsPerBlock(Block(q1));
      }
    }
  }

  /** `k` (examples seen) and `q` (reports fired, four times `step`). */
  datatype Clock = Clock(k: nat, q: nat)

  /** `k++` followed by the test `k % (bump * scale) == 0`, which adds 0.25 to `step`. */
  function Tick(c: Clock): Clock {
    var k := c.k + 1;
    Clock(k, if Fires(k, c.q) then c.q + 1 else c.q)
  }

  type Pos = x: nat | x >= 1 witness 1

  /** How many examples apart reports are while `q` reports have fired. */
  function Spacing(q: nat): Pos {
    Abs(Interval(q))
  }

  /*
   * The rest of this module reasons about a schedule with an arbitrary
   * positive spacing `a`; the training loop follows it for `Spacing`.
   */

  /**
   * `k % a` by repeated subtraction. The schedule's tick is stated with
   * this linear definition, which spares the solver nonlinear arithmetic.
   */
  function Remainder(k: nat, a: Pos): (r: nat)
    ensures r < a
    decreases k
  {
    if k < a then k else Remainder(k - a, a)
  }

  lemma {:induction false} RemainderIsMod(k: nat, a: Pos)
    ensures Remainder(k, a) == k % a
    decreases k
  {
    if k >= a {
      RemainderIsMod(k - a, a);
      DivModUnique(k, a, (k - a) / a + 1, (k - a) % a);
    }
  }

  /** A tick of the schedule whose spacing after `q` reports is `a(q)`. */
  function TickFor(a: nat -> Pos, c: Clock): Clock {
    var k := c.k + 1;
    Clock(k, if Remainder(k, a(c.q)) == 0 then c.q + 1 else c.q)
  }

  /** The clock after `n` examples, and the values of `k` at which reports fired, in order. */
  function RunFor(a: nat -> Pos, n: nat): (Clock, seq<nat>) {
    if n == 0 then (Clock(0, 0), [])
    else
      var prev := RunFor(a, n - 1);
      var c := TickFor(a, prev.0);
      (c, if c.q > prev.0.q then prev.1 + [c.k] else prev.1)
  }

  /** The training loop's tick is the schedule's tick for `Spacing`. */
  lemma TickIsTickFor(c: Clock)
    ensures Tick(c) == TickFor(Spacing, c)
  {
    FiresIffMultiple(c.k + 1, c.q);
    RemainderIsMod(c.k + 1, Spacing(c.q));
  }

  /** The least multiple of `a` above `p`. */
  function NextMultipleAfter(p: nat, a: Pos): (m: nat)
    ensures m > p
  {
    p + (a - p % a)
  }

  /** The `k` of the report numbered `t` (counting from 0): the first multiple of its spacing after the previous report. */
  function ReportAt(a: nat -> Pos, t: nat): (k: nat)
    decreases t, 1
  {
    NextMultipleAfter(Previous(a, t), a(t))
  }

  /** The `k` of the report before report `t`, or 0 for the first one. */
  function Previous(a: nat -> Pos, t: nat): nat
    decreases t, 0
  {
    if t == 0 then 0 else ReportAt(a, t - 1)
  }

  /** A positive `a` times a factor of at least one is at least `a`. */
  lemma MulAtLeast(a: nat, n: int)
    requires n >= 1
    ensures a * n >= a
  {
    assert a * n == a * (n - 1) + a;
  }

  /** Euclidean division is determined by its defining equation. */
  lemma DivModUnique(x: int, a: int, d: int, r: int)
    requires a > 0 && 0 <= r < a && x == a * d + r
    ensures x / a == d && x % a == r
  {
    var d', r' := x / a, x % a;
    assert x == a * d' + r';
    if d' < d {
      assert a * d - a * d' == a * (d - d');
      MulAtLeast(a, d - d');
    } else if d < d' {
      assert a * d' - a * d == a * (d' - d);
      MulAtLeast(a, d' - d);
    }
  }

  /** Between `p` and the next multiple of `a` after it there is no other multiple of `a`. */
  lemma NextMultiple(p: nat, a: Pos, m: nat)
    requires p < m <= NextMultipleAfter(p, a)
    ensures m % a == 0 <==> m == NextMultipleAfter(p, a)
  {
    var d := p / a;
    assert p == a * d + p % a;
    assert NextMultipleAfter(p, a) == a * (d + 1);
    if m == a * (d + 1) {
      DivModUnique(m, a, d + 1, 0);
    }
    if m % a == 0 {
      var c := m / a;
      assert m == a * c;
      assert p == a * d + p % a;
      if c >= d + 2 {
        assert a * c - a * (d + 1) == a * (c - (d + 1));
        MulAtLeast(a, c - (d + 1));
      }
    }
  }

  /** Between the previous report and the next one: the next report is still ahead. */
  predicate OnSchedule(a: nat -> Pos, c: Clock) {
    Previous(a, c.q) <= c.k < ReportAt(a, c.q)
  }

  /** A tick fires the report exactly when it reaches `ReportAt(a, q)`, and stays on schedule. */
  lemma TickOnSchedule(a: nat -> Pos, c: Clock)
    requires OnSchedule(a, c)
    ensures TickFor(a, c).k == c.k + 1
    ensures TickFor(a, c).q == (if c.k + 1 == ReportAt(a, c.q) then c.q + 1 else c.q)
    ensures OnSchedule(a, TickFor(a, c))
  {
    var p, r, k := Previous(a, c.q), ReportAt(a, c.q), c.k + 1;
    NextMultiple(p, a(c.q), k);
    RemainderIsMod(k, a(c.q));
    if k == r {
      assert Previous(a, c.q + 1) == r;
    }
  }

  /** One more example: the clock ticks, and its `k` is recorded if the report fired. */
  lemma RunForStep(a: nat -> Pos, n: nat)
    requires n > 0
    ensures RunFor(a, n).0 == TickFor(a, RunFor(a, n - 1).0)
    ensures RunFor(a, n).1 == if RunFor(a, n).0.q > RunFor(a, n - 1).0.q then RunFor(a, n - 1).1 + [RunFor(a, n).0.k] else RunFor(a, n - 1).1
  {
  }

  /**
   * The schedule after `n` examples: `k == n`, one report per quarter step,
   * the reports fired at `ReportAt(a, 0)`, `ReportAt(a, 1)`, ..., and the
   * next one is still ahead.
   */
  lemma {:induction false} RunFollowsReportAt(a: nat -> Pos, n: nat)
    ensures RunFor(a, n).0.k == n
    ensures RunFor(a, n).0.q == |RunFor(a, n).1|
    ensures forall t :: 0 <= t < |RunFor(a, n).1| ==> RunFor(a, n).1[t] == ReportAt(a, t)
    ensures OnSchedule(a, RunFor(a, n).0)
  {
    if n > 0 {
      RunFollowsReportAt(a, n - 1);
      var prev, now := RunFor(a, n - 1), RunFor(a, n);
      RunForStep(a, n);
      TickOnSchedule(a, prev.0);
      if now.0.q > prev.0.q {
        assert now.1 == prev.1 + [now.0.k];
        assert now.1[prev.0.q] == ReportAt(a, prev.0.q);
      }
    }
  }

  /** Reports fire at strictly increasing `k`. */
  lemma {:induction false} ReportAtIncreasing(a: nat -> Pos, t1: nat, t2: nat)
    requires t1 < t2
    ensures ReportAt(a, t1) < ReportAt(a, t2)
    decreases t2 - t1
  {
    assert ReportAt(a, t2 - 1) < ReportAt(a, t2);
    if t1 < t2 - 1 {
      ReportAtIncreasing(a, t1, t2 - 1);
    }
  }

  /** The spacing is the intended interval while it fits in an `int`, so it never shrinks there. */
  lemma SpacingMonotone(q1: nat, q2: nat)
    requires q1 <= q2 < 116
    ensures Spacing(q1) == IdealInterval(q1) <= IdealInterval(q2) == Spacing(q2)
  {
    IntervalExact(q1);
    IntervalExact(q2);
    IdealIntervalMonotone(q1, q2);
  }

  /** The spacings of the first fourteen reports: each of 1, 2, 5 and 10 four times. */
  lemma FirstSpacings()
    ensures forall q :: 0 <= q < 14 ==> Spacing(q) == FIRST_SPACINGS[q]
  {
    assert Pow10(1) == 10;
    forall q | 0 <= q < 14
      ensures Spacing(q) == FIRST_SPACINGS[q]
    {
      IntervalExact(q);
    }
  }

  /** The spacings of the first fourteen reports. */
  const FIRST_SPACINGS: seq<Pos> := [1, 1, 1, 1, 2, 2, 2, 2, 5, 5, 5, 5, 10, 10]

  /** The first fourteen report times for those spacings. */
  const FIRST_TIMES: seq<nat> := [1, 2, 3, 4, 6, 8, 10, 12, 15, 20, 25, 30, 40, 50]

  /** Each of the first report times is the next multiple of its spacing after the one before. */
  lemma FirstTimesFollowSpacings()
    ensures forall t :: 0 <= t < 14 ==> FIRST_TIMES[t] == NextMultipleAfter(if t == 0 then 0 else FIRST_TIMES[t - 1], FIRST_SPACINGS[t])
  {
  }

  /** Any schedule that starts with the spacings 1, 1, 1, 1, 2, ... fires its first reports at 1, 2, 3, 4, 6, ... */
  lemma FirstReportTimesFor(a: nat -> Pos)
    requires forall q :: 0 <= q < 14 ==> a(q) == FIRST_SPACINGS[q]
    ensures forall t :: 0 <= t < 14 ==> ReportAt(a, t) == FIRST_TIMES[t]
  {
    FirstTimesFollowSpacings();
    for t := 0 to 14
      invariant forall u :: 0 <= u < t ==> ReportAt(a, u) == FIRST_TIMES[u]
    {
      if t > 0 {
        PreviousIsReport(a, t - 1);
      }
    }
  }

  /** Report `t + 1` follows report `t`. */
  lemma PreviousIsReport(a: nat -> Pos, t: nat)
    ensures Previous(a, t + 1) == ReportAt(a, t)
  {
  }

  /** After `n` examples exactly `t` reports have fired iff `n` lies between report `t - 1` and report `t`. */
  lemma ReportsFiredBy(a: nat -> Pos, n: nat, t: nat)
    ensures RunFor(a, n).0.q == t <==> Previous(a, t) <= n < ReportAt(a, t)
  {
    RunFollowsReportAt(a, n);
    var q := RunFor(a, n).0.q;
    if q < t {
      PreviousIsReport(a, t - 1);
      if q < t - 1 {
        ReportAtIncreasing(a, q, t - 1);
      }
    } else if q > t {
      PreviousIsReport(a, q - 1);
      if t < q - 1 {
        ReportAtIncreasing(a, t, q - 1);
      }
    }
  }

  /**
   * Between the first report times `FIRST_TIMES[t]` and `FIRST_TIMES[t + 1]`,
   * such a schedule has fired `t + 1` reports, at `FIRST_TIMES[..t + 1]`.
   */
  lemma FirstReportsFor(a: nat -> Pos, n: nat, t: nat)
    requires forall q :: 0 <= q < 14 ==> a(q) == FIRST_SPACINGS[q]
    requires t < 13 && FIRST_TIMES[t] <= n < FIRST_TIMES[t + 1]
    ensures RunFor(a, n).0 == Clock(n, t + 1)
    ensures RunFor(a, n).1 == FIRST_TIMES[..t + 1]
  {
    RunFollowsReportAt(a, n);
    FirstReportTimesFor(a);
    PreviousIsReport(a, t);
    ReportsFiredBy(a, n, t + 1);
    var fired := RunFor(a, n).1;
    assert |fired| == t + 1;
    assert forall u :: 0 <= u < t + 1 ==> fired[u] == FIRST_TIMES[u];
  }

  /**
   * Starting from `k = 0, step = 0`, the training loop fires its first
   * reports at k = 1, 2, 3, 4, 6, 8, 10, 12, 15, 20, 25, 30, 40 (each
   * interval serves four reports), and the next one only at k = 50.
   */
  lemma FirstReports(n: nat)
    requires 40 <= n < 50
    ensures RunFor(Spacing, n).0 == Clock(n, 13)
    ensures RunFor(Spacing, n).1 == [1, 2, 3, 4, 6, 8, 10, 12, 15, 20, 25, 30, 40]
  {
    FirstSpacings();
    FirstReportsFor(Spacing, n, 12);
  }
}
