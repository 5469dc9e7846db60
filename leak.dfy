/**
 * The deliberate "leak" of the target into the features: each document's
 * words include a date derived from its newsgroup number `actual`, and how
 * much of that date is rendered depends on `leakType % 3`.
 */
module LeakDate {
  import opened Wrappers
  import opened JavaArith

  /** 1997-01-15 00:01:00 GMT, in seconds. */
  const DATE_REFERENCE: nat := 853286460
  /** Thirty days, in seconds. */
  const MONTH: nat := 30 * 24 * 3600
  /** Seven days, in seconds. */
  const WEEK: nat := 7 * 24 * 3600

  /**
   * The spread of the random part of a leak date, in milliseconds. The
   * part itself, `1000 * WEEK * rand.nextDouble()`, is below this bound,
   * but the `double` sum it joins can round up to it exactly.
   */
  const JITTER_LIMIT: nat := 1000 * WEEK

  /** The labels printed for `leakType % 3`. */
  const LEAK_LABELS: seq<string> := ["none", "month-year", "day-month-year"]

  /** The patterns of the three date formats indexed by `leakType % 3`. */
  const DATE_PATTERNS: seq<string> := ["", "MMM-yyyy", "dd-MMM-yyyy HH:mm:ss"]

  /** `Long.MAX_VALUE`. */
  const LONG_MAX: int := 0x7fff_ffff_ffff_ffff

  /** The first millisecond of the leak window of group `actual`. */
  function MonthStart(actual: nat): nat {
    1000 * (DATE_REFERENCE + actual * MONTH)
  }

  /**
   * The leak date of a document of group `actual`, in milliseconds:
   * `1000 * (DATE_REFERENCE + actual * MONTH + WEEK * r)` truncated to a
   * `long`, where `jitter` stands for what the random part
   * `1000 * WEEK * r` adds once the sum is rounded to a `double` and
   * truncated: at most `JITTER_LIMIT`.
   */
  function LeakMillis(actual: nat, jitter: nat): (d: nat)
    requires jitter <= JITTER_LIMIT
    ensures MonthStart(actual) <= d <= MonthStart(actual) + JITTER_LIMIT
  {
    MonthStart(actual) + jitter
  }

  /** The group a leak date belongs to, read back from the date. */
  function GroupOfMillis(d: nat): int {
    (d / 1000 - DATE_REFERENCE) / MONTH
  }

  /** The date leaks the group exactly: every date in a group's window reads back as that group. */
  lemma GroupOfLeakMillis(actual: nat, jitter: nat)
    requires jitter <= JITTER_LIMIT
    ensures GroupOfMillis(LeakMillis(actual, jitter)) == actual
  {
    var d := LeakMillis(actual, jitter);
    var secs := DATE_REFERENCE + actual * MONTH + jitter / 1000;
    assert d == 1000 * secs + jitter % 1000;
    assert d / 1000 == secs;
    assert jitter / 1000 <= WEEK < MONTH;
    assert (actual * MONTH + jitter / 1000) / MONTH == actual;
  }

  /** Because a week is shorter than a month, the windows of successive groups are disjoint and in order. */
  lemma LeakMillisOrdered(a1: nat, j1: nat, a2: nat, j2: nat)
    requires j1 <= JITTER_LIMIT && j2 <= JITTER_LIMIT
    requires a1 < a2
    ensures LeakMillis(a1, j1) < LeakMillis(a2, j2)
  {
    assert MonthStart(a2) - MonthStart(a1) == 1000 * MONTH * (a2 - a1);
    assert 1000 * MONTH * (a2 - a1) >= 1000 * MONTH;
  }

  /** For every `int` group number the date fits in a `long`, so the cast does not saturate. */
  lemma LeakMillisFitsInLong(actual: nat, jitter: nat)
    requires actual <= INT_MAX && jitter <= JITTER_LIMIT
    ensures LeakMillis(actual, jitter) <= LONG_MAX
  {
    assert actual * MONTH <= INT_MAX * MONTH;
  }

  /**
   * `leakType % 3` as an index into `df` and `leakLabels`: Java's remainder
   * is negative for a negative `leakType` that is not a multiple of three,
   * and the array access then throws.
   */
  function FormatIndex(leakType: int): (i: Option<nat>)
    ensures i.Some? ==> i.value < 3
  {
    var r := Rem(leakType, 3);
    if r < 0 then None else Some(r)
  }

  /** The index is defined exactly when `leakType` is non-negative or a multiple of three, and is then the Euclidean remainder. */
  lemma FormatIndexDefined(leakType: int)
    ensures FormatIndex(leakType).Some? <==> leakType >= 0 || leakType % 3 == 0
    ensures FormatIndex(leakType).Some? ==> FormatIndex(leakType).value == leakType % 3
  {
    QuotRem(leakType, 3);
    if leakType >= 0 {
      RemOfNatural(leakType, 3);
    } else {
      assert Rem(leakType, 3) == -((-leakType) % 3);
    }
  }

  /** `leakLabels[leakType % 3]`: the label of a progress line. */
  function LeakLabel(leakType: int): (name: Option<string>)
    ensures name.Some? <==> FormatIndex(leakType).Some?
    ensures name.Some? ==> name.value in LEAK_LABELS
  {
    match FormatIndex(leakType)
    case None => None
    case Some(i) => Some(LEAK_LABELS[i])
  }
}
