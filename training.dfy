/**
 * The training loop of `main`: for each file in the shuffled order the
 * learner is trained, the best model's log-likelihood and prediction feed
 * the running averages, the example counter `k` advances and, on the
 * report schedule, a progress line is printed. The learner is not
 * modelled: each example arrives as an `Observation` that carries its
 * group and what the best model (if any) answered.
 */
module TrainingLoop {
  import opened Wrappers
  import opened JavaArith
  import opened RunningAverage
  import opened ReportSchedule

  /** What the current best model says about an example: `state.logLikelihood(actual, v)` and `p.maxValueIndex()`. */
  datatype Prediction = Prediction(ll: real, estimated: int)

  /** One example: its group number `actual`, and the best model's answer, `None` when `getBest()` has no learner. */
  datatype Observation = Observation(actual: int, best: Option<Prediction>)

  /** The loop's state: `k` and `step` (as the clock), `averageLL` and `averageCorrect`. */
  datatype Stats = Stats(clock: Clock, averageLL: Option<real>, averageCorrect: Option<real>)

  /**
   * The numbers of a progress line: `k`, `ll`, `averageLL`, `averageCorrect`
   * (printed times 100), and the actual and estimated groups.
   */
  datatype Report = Report(k: nat, ll: Option<real>, averageLL: Option<real>, averageCorrect: Option<real>,
                           actual: int, estimated: int)

  /** `averageLL = 0`, `averageCorrect = 0`, `k = 0`, `step = 0`: both averages start defined, at zero. */
  const START: Stats := Stats(Clock(0, 0), Some(0.0), Some(0.0))

  /** `(estimated == actual) ? 1 : 0`. */
  function Correct(p: Prediction, actual: int): real {
    if p.estimated == actual then 1.0 else 0.0
  }

  /** `ll` for the progress line: NaN when there is no model. */
  function LogLikelihood(o: Observation): Option<real> {
    if o.best.Some? then Some(o.best.value.ll) else None
  }

  /** `estimated`: 0 when there is no model. */
  function Estimated(o: Observation): int {
    if o.best.Some? then o.best.value.estimated else 0
  }

  /** `averageLL` after example `o`, seen after `k` others: blended with `ll`, or NaN when there is no model. */
  function NextAverageLL(avg: Option<real>, o: Observation, k: nat): Option<real> {
    if o.best.Some? then Blend(avg, o.best.value.ll, Window(k)) else None
  }

  /** `averageCorrect` after example `o`: blended with `correct`, or NaN when there is no model. */
  function NextAverageCorrect(avg: Option<real>, o: Observation, k: nat): Option<real> {
    if o.best.Some? then Blend(avg, Correct(o.best.value, o.actual), Window(k)) else None
  }

  /**
   * One iteration of the loop: the new state, and the progress line if the
   * clock's `tick` fired a report. The loop of `main` uses `Tick`; the
   * averages do not depend on which tick it is.
   */
  function Step(tick: Clock -> Clock, s: Stats, o: Observation): (Stats, seq<Report>) {
    var averageLL := NextAverageLL(s.averageLL, o, s.clock.k);
    var averageCorrect := NextAverageCorrect(s.averageCorrect, o, s.clock.k);
    var c := tick(s.clock);
    (Stats(c, averageLL, averageCorrect),
     if c.q > s.clock.q then [Report(c.k, LogLikelihood(o), averageLL, averageCorrect, o.actual, Estimated(o))] else [])
  }

  /** The state after the examples `obs`, and every progress line printed so far. */
  function Pass(tick: Clock -> Clock, obs: seq<Observation>): (Stats, seq<Report>) {
    if obs == [] then (START, [])
    else
      var prev := Pass(tick, obs[..|obs| - 1]);
      var next := Step(tick, prev.0, obs[|obs| - 1]);
      (next.0, prev.1 + next.1)
  }

  /** Lines 122-150 of the loop body: `ll`, `estimated` and the two averages after example `o`, seen after `k` others. */
  method Observe(o: Observation, k: nat, averageLL: Option<real>, averageCorrect: Option<real>)
    returns (ll: Option<real>, estimated: int, averageLL': Option<real>, averageCorrect': Option<real>)
    ensures ll == LogLikelihood(o) && estimated == Estimated(o)
    ensures averageLL' == NextAverageLL(averageLL, o, k)
    ensures averageCorrect' == NextAverageCorrect(averageCorrect, o, k)
  {
    if o.best.Some? {
      var p := o.best.value;
      ll := Some(p.ll);
      var mu := Window(k);
      if averageLL.None? {
        averageLL' := Some(p.ll);
      } else {
        averageLL' := Some(averageLL.value + (p.ll - averageLL.value) / (mu as real));
      }
      estimated := p.estimated;
      var correct := if estimated == o.actual then 1.0 else 0.0;
      if averageCorrect.Some? {
        averageCorrect' := Some(averageCorrect.value + (correct - averageCorrect.value) / (mu as real));
      } else {
        averageCorrect' := Some(correct);
      }
    } else {
      estimated := 0;
      ll := None;
      averageLL' := None;
      averageCorrect' := None;
    }
  }

  /** The loop of `main` over the examples `obs`, on its own local variables. */
  method Train(obs: seq<Observation>) returns (final: Stats, reports: seq<Report>)
    ensures (final, reports) == Pass(Tick, obs)
  {
    var averageLL: Option<real> := Some(0.0);
    var averageCorrect: Option<real> := Some(0.0);
    var k: nat := 0;
    var q: nat := 0;
    reports := [];
    for i := 0 to |obs|
      invariant (Stats(Clock(k, q), averageLL, averageCorrect), reports) == Pass(Tick, obs[..i])
    {
      ghost var before := Stats(Clock(k, q), averageLL, averageCorrect);
      ghost var printed := reports;
      var o := obs[i];
      var ll, estimated;
      ll, estimated, averageLL, averageCorrect := Observe(o, k, averageLL, averageCorrect);
      k := k + 1;
      var bump := Bump(q);
      var scale := Scale(q);
      var interval := Wrap32(bump * scale);
      assert interval == Interval(q);
      if Rem(k, interval) == 0 {
        q := q + 1;
        reports := reports + [Report(k, ll, averageLL, averageCorrect, o.actual, estimated)];
      }
      assert Clock(k, q) == Tick(before.clock);
      assert Stats(Clock(k, q), averageLL, averageCorrect) == Step(Tick, before, o).0;
      assert reports == printed + Step(Tick, before, o).1;
      TakeOneMore(obs, i);
      PassStep(Tick, obs[..i], o);
    }
    assert obs[..|obs|] == obs;
    final := Stats(Clock(k, q), averageLL, averageCorrect);
  }

  lemma PassStep(tick: Clock -> Clock, obs: seq<Observation>, o: Observation)
    ensures Pass(tick, obs + [o]) == (Step(tick, Pass(tick, obs).0, o).0, Pass(tick, obs).1 + Step(tick, Pass(tick, obs).0, o).1)
  {
    assert (obs + [o])[..|obs|] == obs;
  }

  /** With the schedule's tick for spacing `a`, the clock and the `k` of every progress line are those of `RunFor(a, n)`. */
  lemma {:induction false} PassFollowsRun(a: nat -> Pos, tick: Clock -> Clock, obs: seq<Observation>)
    requires forall c :: tick(c) == TickFor(a, c)
    ensures Pass(tick, obs).0.clock == RunFor(a, |obs|).0
    ensures |Pass(tick, obs).1| == |RunFor(a, |obs|).1|
    ensures forall i :: 0 <= i < |Pass(tick, obs).1| ==> Pass(tick, obs).1[i].k == RunFor(a, |obs|).1[i]
  {
    if obs != [] {
      var n := |obs| - 1;
      var pre := obs[..n];
      PassFollowsRun(a, tick, pre);
      assert pre + [obs[n]] == obs;
      PassStep(tick, pre, obs[n]);
      RunForStep(a, |obs|);
    }
  }

  /**
   * The progress lines do not depend on the learner: after `n` examples the
   * clock and the `k` of every line are those of the schedule alone.
   */
  lemma PassFollowsSchedule(obs: seq<Observation>)
    ensures Pass(Tick, obs).0.clock == RunFor(Spacing, |obs|).0
    ensures |Pass(Tick, obs).1| == |RunFor(Spacing, |obs|).1|
    ensures forall i :: 0 <= i < |Pass(Tick, obs).1| ==> Pass(Tick, obs).1[i].k == RunFor(Spacing, |obs|).1[i]
  {
    forall c: Clock
      ensures Tick(c) == TickFor(Spacing, c)
    {
      TickIsTickFor(c);
    }
    PassFollowsRun(Spacing, Tick, obs);
  }

  /**
   * The `i`-th progress line is printed at `k == ReportAt(Spacing, i)`, and
   * after `n` examples `k == n` and the next line is still ahead.
   */
  lemma ReportsOnSchedule(obs: seq<Observation>)
    ensures Pass(Tick, obs).0.clock.k == |obs|
    ensures Pass(Tick, obs).0.clock.q == |Pass(Tick, obs).1|
    ensures forall i :: 0 <= i < |Pass(Tick, obs).1| ==> Pass(Tick, obs).1[i].k == ReportAt(Spacing, i)
    ensures OnSchedule(Spacing, Pass(Tick, obs).0.clock)
  {
    PassFollowsSchedule(obs);
    RunFollowsReportAt(Spacing, |obs|);
  }

  /** Whatever the learner does, 40 to 49 examples print thirteen lines, at k = 1, 2, 3, 4, 6, 8, 10, 12, 15, 20, 25, 30, 40. */
  lemma FirstProgressLines(obs: seq<Observation>)
    requires 40 <= |obs| < 50
    ensures |Pass(Tick, obs).1| == 13
    ensures forall i :: 0 <= i < 13 ==> Pass(Tick, obs).1[i].k == [1, 2, 3, 4, 6, 8, 10, 12, 15, 20, 25, 30, 40][i]
  {
    PassFollowsSchedule(obs);
    FirstReports(|obs|);
  }

  /** A tick that counts one example each time, as `k++` does. */
  ghost predicate Counts(tick: Clock -> Clock) {
    forall c :: tick(c).k == c.k + 1
  }

  lemma TickCounts()
    ensures Counts(Tick)
  {
  }

  /** With a counting tick, `k` is the number of examples seen, which sets the window. */
  lemma {:induction false} PassCounts(tick: Clock -> Clock, obs: seq<Observation>)
    requires Counts(tick)
    ensures Pass(tick, obs).0.clock.k == |obs|
  {
    if obs != [] {
      PassCounts(tick, obs[..|obs| - 1]);
    }
  }

  /**
   * Cold start: an example without a best model makes `ll`, `averageLL` and
   * `averageCorrect` NaN and `estimated` 0; the first example with a model
   * after that sets both averages to its raw values, whatever the window.
   */
  lemma ColdStart(tick: Clock -> Clock, s: Stats, o: Observation, o': Observation)
    requires o.best.None? && o'.best.Some?
    ensures Step(tick, s, o).0.averageLL.None? && Step(tick, s, o).0.averageCorrect.None?
    ensures forall r :: r in Step(tick, s, o).1 ==> r.ll.None? && r.estimated == 0
    ensures var s' := Step(tick, Step(tick, s, o).0, o').0;
      s'.averageLL == Some(o'.best.value.ll) && s'.averageCorrect == Some(Correct(o'.best.value, o'.actual))
  {
  }

  /** Every example has a model. */
  predicate AllModelled(obs: seq<Observation>) {
    forall i :: 0 <= i < |obs| ==> obs[i].best.Some?
  }

  /**
   * Once a model is available, a constant `ll` keeps `averageLL` at that
   * constant: from the start (the zero start is overwritten, as the first
   * window is 1) or from the first modelled example after a cold start
   * (the NaN is overwritten).
   */
  lemma {:induction false} ConstantLogLikelihoodAfter(tick: Clock -> Clock, pre: seq<Observation>,
                                                      post: seq<Observation>, v: real)
    requires pre == [] || pre[|pre| - 1].best.None?
    requires |post| >= 1 && AllModelled(post)
    requires forall i :: 0 <= i < |post| ==> post[i].best.value.ll == v
    ensures Pass(tick, pre + post).0.averageLL == Some(v)
  {
    var n := |post| - 1;
    var s := Pass(tick, pre + post[..n]).0;
    SplitLast(pre, post);
    if n == 0 {
      ColdOrFresh(tick, pre);
    } else {
      ConstantLogLikelihoodAfter(tick, pre, post[..n], v);
    }
    BlendKeeps(s.averageLL, v, s.clock.k);
    PassStep(tick, pre + post[..n], post[n]);
  }

  /** The same for `averageCorrect`: a constant `correct` (always 1, or always 0) keeps the average at that constant. */
  lemma {:induction false} ConstantCorrectnessAfter(tick: Clock -> Clock, pre: seq<Observation>,
                                                    post: seq<Observation>, c: real)
    requires pre == [] || pre[|pre| - 1].best.None?
    requires |post| >= 1 && AllModelled(post)
    requires forall i :: 0 <= i < |post| ==> Correct(post[i].best.value, post[i].actual) == c
    ensures Pass(tick, pre + post).0.averageCorrect == Some(c)
  {
    var n := |post| - 1;
    var s := Pass(tick, pre + post[..n]).0;
    SplitLast(pre, post);
    if n == 0 {
      ColdOrFresh(tick, pre);
    } else {
      ConstantCorrectnessAfter(tick, pre, post[..n], c);
    }
    var o := post[n];
    BlendKeeps(s.averageCorrect, c, s.clock.k);
    PassStep(tick, pre + post[..n], o);
  }

  lemma TakeOneMore<T>(s: seq<T>, i: nat)
    requires i < |s|
    ensures s[..i + 1] == s[..i] + [s[i]]
  {
  }

  lemma SplitLast<T>(pre: seq<T>, post: seq<T>)
    requires |post| >= 1
    ensures (pre + post[..|post| - 1]) + [post[|post| - 1]] == pre + post
    ensures |post| == 1 ==> pre + post[..|post| - 1] == pre
  {
  }

  /** Where a constant stream may begin: at the start (clock at zero) or right after an example without a model (averages NaN). */
  lemma ColdOrFresh(tick: Clock -> Clock, pre: seq<Observation>)
    requires pre == [] || pre[|pre| - 1].best.None?
    ensures var s := Pass(tick, pre).0;
      (s.clock.k == 0 && s.averageLL == Some(0.0) && s.averageCorrect == Some(0.0))
      || (s.averageLL.None? && s.averageCorrect.None?)
  {
    if pre != [] {
      var m := |pre| - 1;
      PassStep(tick, pre[..m], pre[m]);
      assert pre[..m] + [pre[m]] == pre;
    }
  }

  /** One blended update by `v` leaves an average at `v` when it was NaN, already `v`, or zero with window 1. */
  lemma BlendKeeps(avg: Option<real>, v: real, k: nat)
    requires avg.None? || avg == Some(v) || (avg == Some(0.0) && k == 0)
    ensures Blend(avg, v, Window(k)) == Some(v)
  {
    if avg == Some(v) {
      BlendFixedPoint(v, Window(k));
    }
  }

  /** With a model from the first example on, a constant `ll` keeps `averageLL` at that constant. */
  lemma ConstantLogLikelihood(tick: Clock -> Clock, obs: seq<Observation>, v: real)
    requires |obs| >= 1 && AllModelled(obs)
    requires forall i :: 0 <= i < |obs| ==> obs[i].best.value.ll == v
    ensures Pass(tick, obs).0.averageLL == Some(v)
  {
    assert [] + obs == obs;
    ConstantLogLikelihoodAfter(tick, [], obs, v);
  }

  /** When the best model always predicts the right group, `averageCorrect` is 1. */
  lemma AlwaysCorrect(tick: Clock -> Clock, obs: seq<Observation>)
    requires |obs| >= 1 && AllModelled(obs)
    requires forall i :: 0 <= i < |obs| ==> obs[i].best.value.estimated == obs[i].actual
    ensures Pass(tick, obs).0.averageCorrect == Some(1.0)
  {
    assert [] + obs == obs;
    ConstantCorrectnessAfter(tick, [], obs, 1.0);
  }

  /** When the best model never predicts the right group, `averageCorrect` is 0. */
  lemma NeverCorrect(tick: Clock -> Clock, obs: seq<Observation>)
    requires |obs| >= 1 && AllModelled(obs)
    requires forall i :: 0 <= i < |obs| ==> obs[i].best.value.estimated != obs[i].actual
    ensures Pass(tick, obs).0.averageCorrect == Some(0.0)
  {
    assert [] + obs == obs;
    ConstantCorrectnessAfter(tick, [], obs, 0.0);
  }

  /** `averageCorrect`, when defined, is a fraction in `[0, 1]`. */
  lemma {:induction false} AccuracyIsFraction(tick: Clock -> Clock, obs: seq<Observation>)
    ensures Pass(tick, obs).0.averageCorrect.Some? ==> 0.0 <= Pass(tick, obs).0.averageCorrect.value <= 1.0
  {
    if obs != [] {
      var n := |obs| - 1;
      AccuracyIsFraction(tick, obs[..n]);
      PassStep(tick, obs[..n], obs[n]);
      assert obs[..n] + [obs[n]] == obs;
      var s := Pass(tick, obs[..n]).0;
      if obs[n].best.Some? {
        BlendWithin(s.averageCorrect, Correct(obs[n].best.value, obs[n].actual), Window(s.clock.k), 0.0, 1.0);
      }
    }
  }

  /** Once an example has been seen, `averageLL` stays within any bounds that every `ll` so far respects. */
  lemma {:induction false} LogLikelihoodBounded(tick: Clock -> Clock, obs: seq<Observation>, lo: real, hi: real)
    requires Counts(tick)
    requires |obs| >= 1
    requires forall i :: 0 <= i < |obs| && obs[i].best.Some? ==> lo <= obs[i].best.value.ll <= hi
    ensures Pass(tick, obs).0.averageLL.Some? ==> lo <= Pass(tick, obs).0.averageLL.value <= hi
  {
    var n := |obs| - 1;
    PassStep(tick, obs[..n], obs[n]);
    assert obs[..n] + [obs[n]] == obs;
    PassCounts(tick, obs[..n]);
    var s := Pass(tick, obs[..n]).0;
    if n == 0 {
      assert s == START;
      if obs[n].best.Some? {
        BlendWindowOne(s.averageLL, obs[n].best.value.ll);
      }
    } else {
      LogLikelihoodBounded(tick, obs[..n], lo, hi);
      if obs[n].best.Some? {
        BlendWithin(s.averageLL, obs[n].best.value.ll, Window(n), lo, hi);
      }
    }
  }

  /** The log-likelihoods of examples that all have a model. */
  function LogLikelihoods(obs: seq<Observation>): (lls: seq<real>)
    requires AllModelled(obs)
    ensures |lls| == |obs|
    ensures forall i :: 0 <= i < |obs| ==> lls[i] == obs[i].best.value.ll
  {
    if obs == [] then [] else LogLikelihoods(obs[..|obs| - 1]) + [obs[|obs| - 1].best.value.ll]
  }

  /**
   * For the first 200 examples, when every example has a model, `averageLL`
   * is exactly the mean log-likelihood so far.
   */
  lemma {:induction false} AverageIsMean(tick: Clock -> Clock, obs: seq<Observation>)
    requires Counts(tick)
    requires 1 <= |obs| <= WINDOW_LIMIT && AllModelled(obs)
    ensures Pass(tick, obs).0.averageLL == Some(Sum(LogLikelihoods(obs)) / (|obs| as real))
  {
    var n := |obs| - 1;
    var pre := obs[..n];
    PassStep(tick, pre, obs[n]);
    assert pre + [obs[n]] == obs;
    PassCounts(tick, pre);
    var s := Pass(tick, pre).0;
    var x := obs[n].best.value.ll;
    var lls := LogLikelihoods(pre);
    assert LogLikelihoods(obs) == lls + [x];
    SumAppend(lls, x);
    assert Pass(tick, obs).0.averageLL == Blend(s.averageLL, x, n + 1);
    if n == 0 {
      assert s == START;
      assert lls == [];
      BlendWindowOne(Some(0.0), x);
    } else {
      AverageIsMean(tick, pre);
      MeanStep(s.averageLL, Sum(lls), n, x, Sum(LogLikelihoods(obs)));
    }
  }

  /** The arithmetic of one exact-mean step, apart from the loop's state. */
  lemma MeanStep(avg: Option<real>, s: real, n: nat, x: real, total: real)
    requires n >= 1
    requires avg == Some(s / (n as real)) && total == s + x
    ensures Blend(avg, x, n + 1) == Some(total / ((n + 1) as real))
  {
    BlendExtendsMean(s, n, x);
  }
}
