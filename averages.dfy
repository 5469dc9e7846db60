/**
 * The two running averages of the training loop, `averageLL` and
 * `averageCorrect`. A `double` that is NaN ("not yet defined") is `None`;
 * any other value is `Some` of a real number (rounding is not modelled).
 */
module RunningAverage {
  import opened Wrappers

  /** The largest window the averages use. */
  const WINDOW_LIMIT: nat := 200

  /** `Math.min(k + 1, 200)`: the window for the example seen after `k` others. */
  function Window(k: nat): (mu: nat)
    ensures 1 <= mu <= WINDOW_LIMIT
    ensures mu <= k + 1
    ensures mu == k + 1 || mu == WINDOW_LIMIT
  {
    if k + 1 < WINDOW_LIMIT then k + 1 else WINDOW_LIMIT
  }

  /**
   * One update of an average with the new value `x` and window `mu`: an
   * undefined average becomes `x`; a defined one moves `1 / mu` of the way
   * towards `x`.
   */
  function Blend(avg: Option<real>, x: real, mu: nat): Option<real>
    requires mu >= 1
  {
    match avg
    case None => Some(x)
    case Some(a) => Some(a + (x - a) / (mu as real))
  }

  /** An update always leaves the average defined. */
  lemma BlendDefined(avg: Option<real>, x: real, mu: nat)
    requires mu >= 1
    ensures Blend(avg, x, mu).Some?
    ensures avg.None? ==> Blend(avg, x, mu).value == x
  {
  }

  /** Feeding an average its own value leaves it unchanged. */
  lemma BlendFixedPoint(v: real, mu: nat)
    requires mu >= 1
    ensures Blend(Some(v), v, mu) == Some(v)
  {
  }

  /** With a window of one the old average is forgotten. */
  lemma BlendWindowOne(avg: Option<real>, x: real)
    ensures Blend(avg, x, 1) == Some(x)
  {
  }

  /**
   * The new average lies between the old one and the new value; its
   * distance to the new value shrinks by the factor `1 - 1 / mu`.
   */
  lemma BlendBetween(a: real, x: real, mu: nat)
    requires mu >= 1
    ensures var r := Blend(Some(a), x, mu).value;
      (a <= x ==> a <= r <= x) && (x <= a ==> x <= r <= a)
      && r - x == (a - x) * (1.0 - 1.0 / (mu as real))
  {
    var m := mu as real;
    var r := a + (x - a) / m;
    assert r - x == (a - x) * (1.0 - 1.0 / m);
    assert 0.0 < 1.0 / m <= 1.0;
    assert (x - a) / m == (x - a) * (1.0 / m);
  }

  /** An average of values in `[lo, hi]` stays in `[lo, hi]`. */
  lemma BlendWithin(avg: Option<real>, x: real, mu: nat, lo: real, hi: real)
    requires mu >= 1
    requires lo <= x <= hi
    requires avg.Some? ==> lo <= avg.value <= hi
    ensures lo <= Blend(avg, x, mu).value <= hi
  {
    if avg.Some? {
      BlendBetween(avg.value, x, mu);
    }
  }

  /** The sum of a sequence of reals. */
  function Sum(xs: seq<real>): real {
    if xs == [] then 0.0 else Sum(xs[..|xs| - 1]) + xs[|xs| - 1]
  }

  lemma SumAppend(xs: seq<real>, x: real)
    ensures Sum(xs + [x]) == Sum(xs) + x
  {
    assert (xs + [x])[..|xs|] == xs;
  }

  /**
   * While the window is `n + 1`, an update turns the mean `s / n` of `n`
   * values into the mean of those values and the new one `x`: the average
   * is exact.
   */
  lemma BlendExtendsMean(s: real, n: nat, x: real)
    requires n >= 1
    ensures Blend(Some(s / (n as real)), x, n + 1) == Some((s + x) / ((n + 1) as real))
  {
    var r := n as real;
    assert (n + 1) as real == r + 1.0;
    var m := s / r;
    DivThenMul(s, r);
    AddFraction(m, x - m, r + 1.0);
    assert m * (r + 1.0) == m * r + m;
    assert m + (x - m) / (r + 1.0) == (s + x) / (r + 1.0);
    assert Blend(Some(m), x, n + 1) == Some(m + (x - m) / (r + 1.0));
  }

  lemma DivThenMul(a: real, d: real)
    requires d > 0.0
    ensures (a / d) * d == a
  {
  }

  lemma AddFraction(a: real, b: real, d: real)
    requires d > 0.0
    ensures a + b / d == (a * d + b) / d
  {
    assert (a * d) / d == a;
  }
}
