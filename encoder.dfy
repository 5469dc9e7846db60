/**
 * The words `encodeFeatureVector` collects from one newsgroup file. The file
 * is its sequence of lines (without line terminators); the Lucene analyzer
 * is a parameter `tokenize` and the date formatter a parameter `render`,
 * each taken as an arbitrary function. The multiset of words is a map from
 * word to count, holding only words with a positive count.
 */
module FeatureWords {
  import opened Wrappers
  import opened JavaArith
  import opened LeakDate

  /** The two ways `encodeFeatureVector` fails on a file. */
  datatype EncodeError =
    | FormatIndexOutOfBounds(index: int)  // `df[leakType % 3]` with a negative index
    | HeaderRunsToEndOfFile               // `readLine()` returned null inside the header block

  predicate StartsWith(s: string, prefix: string) {
    |prefix| <= |s| && s[..|prefix|] == prefix
  }

  /** A header whose lines are counted (when `leakType < 6`). */
  predicate IsFieldHeader(line: string) {
    StartsWith(line, "From:") || StartsWith(line, "Subject:")
    || StartsWith(line, "Keywords:") || StartsWith(line, "Summary:")
  }

  /** A line that continues the header above it. */
  predicate IsContinuation(line: string) {
    StartsWith(line, " ")
  }

  /** Line `j` starts a header group: it is the first line or not a continuation. */
  predicate OpensGroup(lines: seq<string>, j: nat)
    requires j < |lines|
  {
    j == 0 || !IsContinuation(lines[j])
  }

  /** The first line of the header group line `j` belongs to. */
  function GroupStart(lines: seq<string>, j: nat): (g: nat)
    requires j < |lines|
    ensures g <= j && OpensGroup(lines, g)
    ensures forall m :: g < m <= j ==> IsContinuation(lines[m])
  {
    if OpensGroup(lines, j) then j else GroupStart(lines, j - 1)
  }

  /** A group opener followed only by continuations up to `j` is the start of `j`'s group. */
  lemma {:induction false} GroupStartUnique(lines: seq<string>, g: nat, j: nat)
    requires g <= j < |lines| && OpensGroup(lines, g)
    requires forall m :: g < m <= j ==> IsContinuation(lines[m])
    ensures GroupStart(lines, j) == g
    decreases j
  {
    if j > g {
      GroupStartUnique(lines, g, j - 1);
    }
  }

  /** Whether header line `j` is counted: its group opens with a field header and headers are wanted. */
  predicate Selected(lines: seq<string>, withHeaders: bool, j: nat)
    requires j < |lines|
  {
    withHeaders && IsFieldHeader(lines[GroupStart(lines, j)])
  }

  /** The header lines among the first `n` that are counted, in file order. */
  function HeaderLines(lines: seq<string>, withHeaders: bool, n: nat): seq<string>
    requires n <= |lines|
  {
    if n == 0 then []
    else HeaderLines(lines, withHeaders, n - 1)
         + (if Selected(lines, withHeaders, n - 1) then [lines[n - 1]] else [])
  }

  /** The positions of the lines `HeaderLines` keeps. */
  ghost function SelectedIndices(lines: seq<string>, withHeaders: bool, n: nat): seq<nat>
    requires n <= |lines|
  {
    if n == 0 then []
    else SelectedIndices(lines, withHeaders, n - 1)
         + (if Selected(lines, withHeaders, n - 1) then [n - 1] else [])
  }

  /**
   * `HeaderLines` keeps exactly the selected lines, each once and in file
   * order: it is the lines at strictly increasing positions, and a position
   * occurs iff its line is selected.
   */
  lemma HeaderLinesSelection(lines: seq<string>, withHeaders: bool, n: nat)
    requires n <= |lines|
    ensures var hs, ix := HeaderLines(lines, withHeaders, n), SelectedIndices(lines, withHeaders, n);
      && |hs| == |ix|
      && (forall k :: 0 <= k < |ix| ==> ix[k] < n && hs[k] == lines[ix[k]])
      && IncreasingBelow(ix, n)
      && (forall j :: 0 <= j < n ==> (j in ix <==> Selected(lines, withHeaders, j)))
  {
    HeaderLinesAtIndices(lines, withHeaders, n);
    SelectedIndicesIncrease(lines, withHeaders, n);
    SelectedIndicesMembers(lines, withHeaders, n);
  }

  lemma {:induction false} HeaderLinesAtIndices(lines: seq<string>, withHeaders: bool, n: nat)
    requires n <= |lines|
    ensures var hs, ix := HeaderLines(lines, withHeaders, n), SelectedIndices(lines, withHeaders, n);
      |hs| == |ix| && forall k :: 0 <= k < |ix| ==> ix[k] < n && hs[k] == lines[ix[k]]
  {
    if n > 0 {
      HeaderLinesAtIndices(lines, withHeaders, n - 1);
    }
  }

  /** Positions below `n`, in strictly increasing order. */
  predicate IncreasingBelow(ix: seq<nat>, n: nat) {
    (forall k :: 0 <= k < |ix| ==> ix[k] < n)
    && forall k1, k2 :: 0 <= k1 < k2 < |ix| ==> ix[k1] < ix[k2]
  }

  lemma {:induction false} SelectedIndicesIncrease(lines: seq<string>, withHeaders: bool, n: nat)
    requires n <= |lines|
    ensures IncreasingBelow(SelectedIndices(lines, withHeaders, n), n)
  {
    if n > 0 {
      SelectedIndicesIncrease(lines, withHeaders, n - 1);
      var ix0 := SelectedIndices(lines, withHeaders, n - 1);
      if Selected(lines, withHeaders, n - 1) {
        assert SelectedIndices(lines, withHeaders, n) == ix0 + [n - 1];
      }
    }
  }

  lemma {:induction false} SelectedIndicesMembers(lines: seq<string>, withHeaders: bool, n: nat)
    requires n <= |lines|
    ensures forall j :: 0 <= j < n ==> (j in SelectedIndices(lines, withHeaders, n) <==> Selected(lines, withHeaders, j))
    ensures forall j :: j in SelectedIndices(lines, withHeaders, n) ==> j < n
  {
    if n > 0 {
      SelectedIndicesMembers(lines, withHeaders, n - 1);
    }
  }

  /** Without headers wanted, no header line is counted. */
  lemma {:induction false} NoHeaderLines(lines: seq<string>, n: nat)
    requires n <= |lines|
    ensures HeaderLines(lines, false, n) == []
  {
    if n > 0 {
      NoHeaderLines(lines, n - 1);
    }
  }

  /** The position of the first empty line, which ends the header block. */
  function FirstBlank(lines: seq<string>): (e: Option<nat>)
    ensures e.Some? ==> e.value < |lines| && |lines[e.value]| == 0
    ensures e.Some? ==> forall j :: 0 <= j < e.value ==> |lines[j]| > 0
    ensures e.None? ==> forall j :: 0 <= j < |lines| ==> |lines[j]| > 0
  {
    FirstBlankFrom(lines, 0)
  }

  function FirstBlankFrom(lines: seq<string>, i: nat): (e: Option<nat>)
    requires i <= |lines|
    requires forall j :: 0 <= j < i ==> |lines[j]| > 0
    ensures e.Some? ==> e.value < |lines| && |lines[e.value]| == 0
    ensures e.Some? ==> forall j :: 0 <= j < e.value ==> |lines[j]| > 0
    ensures e.None? ==> forall j :: 0 <= j < |lines| ==> |lines[j]| > 0
    decreases |lines| - i
  {
    if i == |lines| then None
    else if |lines[i]| == 0 then Some(i)
    else FirstBlankFrom(lines, i + 1)
  }

  /** The text the reader still holds: the remaining lines, each ended by a newline. */
  function Join(lines: seq<string>): string {
    if lines == [] then "" else lines[0] + "\n" + Join(lines[1..])
  }

  /**
   * The texts `encodeFeatureVector` hands to `countWords`, in order: the leak
   * date rendered with pattern `DATE_PATTERNS[leakType % 3]`, then the counted
   * header lines, then (when `leakType < 3`) the rest of the file after the
   * empty line. `jitter` is the random part of the leak date.
   */
  function Segments(lines: seq<string>, actual: nat, jitter: nat, leakType: int,
                    render: (string, nat) -> string): Result<seq<string>, EncodeError>
    requires jitter <= JITTER_LIMIT
  {
    match FormatIndex(leakType)
    case None => Err(FormatIndexOutOfBounds(Rem(leakType, 3)))
    case Some(f) =>
      var date := render(DATE_PATTERNS[f], LeakMillis(actual, jitter));
      match FirstBlank(lines)
      case Some(e) =>
        Ok([date] + HeaderLines(lines, leakType < 6, e)
           + (if leakType < 3 then [Join(lines[e + 1..])] else []))
      case None =>
        if lines == [] then Ok([date] + (if leakType < 3 then [""] else []))
        else Err(HeaderRunsToEndOfFile)
  }

  /** All tokens of the segments, in order. */
  function Tokens(segments: seq<string>, tokenize: string -> seq<string>): seq<string> {
    if segments == [] then []
    else Tokens(segments[..|segments| - 1], tokenize) + tokenize(segments[|segments| - 1])
  }

  lemma TokensAppend(segments: seq<string>, s: string, tokenize: string -> seq<string>)
    ensures Tokens(segments + [s], tokenize) == Tokens(segments, tokenize) + tokenize(s)
  {
    assert (segments + [s])[..|segments|] == segments;
  }

  /** The count of `w` in a word multiset. */
  function Count(m: map<string, nat>, w: string): nat {
    if w in m then m[w] else 0
  }

  /** `words.add(w)`. */
  function Added(m: map<string, nat>, w: string): map<string, nat> {
    m[w := Count(m, w) + 1]
  }

  /** Adding `w` raises its count by one, makes it present, and changes no other word. */
  lemma AddedCounts(m: map<string, nat>, w: string)
    ensures forall v :: v in Added(m, w) <==> v in m || v == w
    ensures Count(Added(m, w), w) == Count(m, w) + 1
    ensures forall v :: v != w ==> Count(Added(m, w), v) == Count(m, v)
  {
  }

  /** The multiset `m` after adding every token of `ts`, first to last. */
  function AddAll(m: map<string, nat>, ts: seq<string>): map<string, nat> {
    if ts == [] then m else Added(AddAll(m, ts[..|ts| - 1]), ts[|ts| - 1])
  }

  /**
   * Adding tokens raises each word's count by its number of occurrences,
   * and the words present are the old ones and the tokens.
   */
  lemma {:induction false} AddAllCounts(m: map<string, nat>, ts: seq<string>)
    ensures forall w :: Count(AddAll(m, ts), w) == Count(m, w) + multiset(ts)[w]
    ensures forall w :: w in AddAll(m, ts) <==> w in m || w in ts
  {
    if ts != [] {
      var n := |ts| - 1;
      AddAllCounts(m, ts[..n]);
      assert AddAll(m, ts) == Added(AddAll(m, ts[..n]), ts[n]);
      AddedCounts(AddAll(m, ts[..n]), ts[n]);
      LastToken(ts);
    }
  }

  lemma LastToken(ts: seq<string>)
    requires ts != []
    ensures multiset(ts) == multiset(ts[..|ts| - 1]) + multiset{ts[|ts| - 1]}
    ensures forall w :: w in ts <==> w in ts[..|ts| - 1] || w == ts[|ts| - 1]
  {
    var n := |ts| - 1;
    assert ts == ts[..n] + [ts[n]];
    forall w
      ensures w in ts <==> w in ts[..n] || w == ts[n]
    {
      assert w in ts <==> w in multiset(ts);
      assert w in ts[..n] <==> w in multiset(ts[..n]);
    }
  }

  /**
   * The multiset of a token sequence: every word in it occurs in the tokens,
   * its count is its number of occurrences, and so the count is at least one.
   */
  lemma BagCounts(ts: seq<string>)
    ensures forall w :: w in AddAll(map[], ts) <==> w in ts
    ensures forall w :: w in AddAll(map[], ts) ==> AddAll(map[], ts)[w] == multiset(ts)[w] >= 1
  {
    AddAllCounts(map[], ts);
    forall w | w in AddAll(map[], ts)
      ensures AddAll(map[], ts)[w] == multiset(ts)[w] >= 1
    {
      assert Count(AddAll(map[], ts), w) == multiset(ts)[w];
    }
  }

  /** The multiset does not depend on the order of the tokens. */
  lemma BagIgnoresOrder(ts: seq<string>, us: seq<string>)
    requires multiset(ts) == multiset(us)
    ensures AddAll(map[], ts) == AddAll(map[], us)
  {
    AddAllCounts(map[], ts);
    AddAllCounts(map[], us);
    assert forall w :: w in ts <==> w in multiset(ts);
    assert forall w :: w in us <==> w in multiset(us);
    var a, b := AddAll(map[], ts), AddAll(map[], us);
    assert a.Keys == b.Keys;
    forall w | w in a
      ensures a[w] == b[w]
    {
      assert Count(a, w) == Count(b, w);
    }
  }

  /** Adding two token sequences one after the other. */
  lemma {:induction false} AddAllConcat(m: map<string, nat>, ts: seq<string>, us: seq<string>)
    ensures AddAll(m, ts + us) == AddAll(AddAll(m, ts), us)
    decreases |us|
  {
    if us != [] {
      var n := |us| - 1;
      AddAllConcat(m, ts, us[..n]);
      var tu := ts + us;
      assert tu[..|tu| - 1] == ts + us[..n];
      assert tu[|tu| - 1] == us[n];
    } else {
      assert ts + us == ts;
    }
  }

  /** The word multiset a segment selection yields. */
  function WordsOf(segments: Result<seq<string>, EncodeError>, tokenize: string -> seq<string>)
    : Result<map<string, nat>, EncodeError>
  {
    match segments
    case Err(e) => Err(e)
    case Ok(s) => Ok(AddAll(map[], Tokens(s, tokenize)))
  }

  /** The `Multiset<String>` the words are collected in. */
  class WordBag {
    var counts: map<string, nat>

    constructor()
      ensures counts == map[]
    {
      counts := map[];
    }

    /** `words.add(w)`. */
    method Add(w: string)
      modifies this
      ensures counts == Added(old(counts), w)
    {
      var n := if w in counts then counts[w] else 0;
      counts := counts[w := n + 1];
    }
  }

  /** `countWords`: adds each token of the stream to `words`, in order. */
  method CountWords(words: WordBag, tokens: seq<string>)
    modifies words
    ensures words.counts == AddAll(old(words.counts), tokens)
  {
    var i := 0;
    while i < |tokens|
      invariant 0 <= i <= |tokens|
      invariant words.counts == AddAll(old(words.counts), tokens[..i])
    {
      assert tokens[..i + 1][..i] == tokens[..i];
      words.Add(tokens[i]);
      i := i + 1;
    }
    assert tokens[..i] == tokens;
  }

  /** One more segment counted: the multiset grows by that segment's tokens. */
  lemma CountSegment(segments: seq<string>, s: string, tokenize: string -> seq<string>)
    ensures AddAll(AddAll(map[], Tokens(segments, tokenize)), tokenize(s))
         == AddAll(map[], Tokens(segments + [s], tokenize))
  {
    TokensAppend(segments, s, tokenize);
    AddAllConcat(map[], Tokens(segments, tokenize), tokenize(s));
  }

  /** The multiset `m` after counting the selected header lines among the first `n`, in order. */
  function CountedHeaders(m: map<string, nat>, lines: seq<string>, withHeaders: bool, n: nat,
                          tokenize: string -> seq<string>): map<string, nat>
    requires n <= |lines|
  {
    if n == 0 then m
    else
      var before := CountedHeaders(m, lines, withHeaders, n - 1, tokenize);
      if Selected(lines, withHeaders, n - 1) then AddAll(before, tokenize(lines[n - 1])) else before
  }

  /** Counting the header lines one by one is counting the tokens of `HeaderLines`. */
  lemma {:induction false} CountedHeadersAreHeaderLines(segments: seq<string>, lines: seq<string>,
                                                         withHeaders: bool, n: nat,
                                                         tokenize: string -> seq<string>)
    requires n <= |lines|
    ensures CountedHeaders(AddAll(map[], Tokens(segments, tokenize)), lines, withHeaders, n, tokenize)
         == AddAll(map[], Tokens(segments + HeaderLines(lines, withHeaders, n), tokenize))
  {
    if n == 0 {
      assert segments + [] == segments;
    } else {
      CountedHeadersAreHeaderLines(segments, lines, withHeaders, n - 1, tokenize);
      var hs := HeaderLines(lines, withHeaders, n - 1);
      if Selected(lines, withHeaders, n - 1) {
        CountSegment(segments + hs, lines[n - 1], tokenize);
        assert HeaderLines(lines, withHeaders, n) == hs + [lines[n - 1]];
        assert (segments + hs) + [lines[n - 1]] == segments + (hs + [lines[n - 1]]);
      } else {
        assert hs == HeaderLines(lines, withHeaders, n);
      }
    }
  }

  /**
   * The do-while over one header group (lines 232-238): counts line `i` and
   * its continuation lines when `countHeader`, and returns the position of
   * the line after the group, which is `|lines|` when the file ends first.
   */
  method WalkGroup(words: WordBag, lines: seq<string>, i: nat, countHeader: bool,
                   ghost withHeaders: bool, ghost base: map<string, nat>, tokenize: string -> seq<string>)
    returns (next: nat)
    requires i < |lines| && |lines[i]| > 0 && OpensGroup(lines, i)
    requires forall j :: 0 <= j < i ==> |lines[j]| > 0
    requires countHeader == (IsFieldHeader(lines[i]) && withHeaders)
    requires words.counts == CountedHeaders(base, lines, withHeaders, i, tokenize)
    modifies words
    ensures i < next <= |lines|
    ensures forall j :: 0 <= j < next ==> |lines[j]| > 0
    ensures next < |lines| ==> OpensGroup(lines, next)
    ensures words.counts == CountedHeaders(base, lines, withHeaders, next, tokenize)
  {
    next := i;
    while true
      invariant i <= next < |lines|
      invariant forall m :: i < m <= next ==> IsContinuation(lines[m])
      invariant forall j :: 0 <= j <= next ==> |lines[j]| > 0
      invariant words.counts == CountedHeaders(base, lines, withHeaders, next, tokenize)
      decreases |lines| - next
    {
      GroupStartUnique(lines, i, next);
      assert countHeader == Selected(lines, withHeaders, next);
      if countHeader {
        CountWords(words, tokenize(lines[next]));
      }
      next := next + 1;
      if next == |lines| || !IsContinuation(lines[next]) {
        return;
      }
    }
  }

  /**
   * `encodeFeatureVector` up to the multiset of words: the reader's current
   * line is `lines[i]` (`null` once `i == |lines|`).
   */
  method EncodeWords(lines: seq<string>, actual: nat, jitter: nat, leakType: int,
                     render: (string, nat) -> string, tokenize: string -> seq<string>)
    returns (r: Result<map<string, nat>, EncodeError>)
    requires jitter <= JITTER_LIMIT
    ensures r == WordsOf(Segments(lines, actual, jitter, leakType, render), tokenize)
  {
    var f := Rem(leakType, 3);
    if f < 0 {
      return Err(FormatIndexOutOfBounds(f));
    }
    var words := new WordBag();
    var date := render(DATE_PATTERNS[f], LeakMillis(actual, jitter));
    CountWords(words, tokenize(date));
    assert Tokens([date], tokenize) == tokenize(date) by {
      assert [date][..0] == [];
    }
    ghost var base := words.counts;
    var withHeaders := leakType < 6;
    var i := 0;
    while i < |lines| && |lines[i]| > 0
      invariant i <= |lines| && (i == |lines| ==> i == 0)
      invariant forall j :: 0 <= j < i ==> |lines[j]| > 0
      invariant i < |lines| ==> OpensGroup(lines, i)
      invariant words.counts == CountedHeaders(base, lines, withHeaders, i, tokenize)
      decreases |lines| - i
    {
      var countHeader := IsFieldHeader(lines[i]) && withHeaders;
      i := WalkGroup(words, lines, i, countHeader, withHeaders, base, tokenize);
      if i == |lines| {
        UnendedHeaderFails(lines, actual, jitter, leakType, render);
        return Err(HeaderRunsToEndOfFile);
      }
    }
    CountedHeadersAreHeaderLines([date], lines, withHeaders, i, tokenize);
    ghost var segments := [date] + HeaderLines(lines, withHeaders, i);
    assert words.counts == AddAll(map[], Tokens(segments, tokenize));
    var rest := if i < |lines| then Join(lines[i + 1..]) else "";
    if leakType < 3 {
      CountWords(words, tokenize(rest));
      CountSegment(segments, rest, tokenize);
      segments := segments + [rest];
    } else {
      assert segments + [] == segments;
    }
    SegmentsOfEndedHeader(lines, actual, jitter, leakType, render, i);
    assert Segments(lines, actual, jitter, leakType, render) == Ok(segments);
    r := Ok(words.counts);
  }

  /** The segments of a file whose header block ends at line `e` (or that is empty). */
  lemma SegmentsOfEndedHeader(lines: seq<string>, actual: nat, jitter: nat, leakType: int,
                              render: (string, nat) -> string, e: nat)
    requires jitter <= JITTER_LIMIT
    requires FormatIndex(leakType).Some?
    requires e <= |lines| && (e == |lines| ==> e == 0)
    requires forall j :: 0 <= j < e ==> |lines[j]| > 0
    requires e < |lines| ==> |lines[e]| == 0
    ensures var date := render(DATE_PATTERNS[Rem(leakType, 3)], LeakMillis(actual, jitter));
      var rest := if e < |lines| then Join(lines[e + 1..]) else "";
      Segments(lines, actual, jitter, leakType, render)
      == Ok([date] + HeaderLines(lines, leakType < 6, e) + (if leakType < 3 then [rest] else []))
  {
    if e < |lines| {
      SegmentsOfBlankLine(lines, actual, jitter, leakType, render, e);
    } else {
      SegmentsOfEmptyFile(lines, actual, jitter, leakType, render);
    }
  }

  lemma SegmentsOfBlankLine(lines: seq<string>, actual: nat, jitter: nat, leakType: int,
                            render: (string, nat) -> string, e: nat)
    requires jitter <= JITTER_LIMIT
    requires FormatIndex(leakType).Some?
    requires e < |lines| && |lines[e]| == 0
    requires forall j :: 0 <= j < e ==> |lines[j]| > 0
    ensures Segments(lines, actual, jitter, leakType, render)
      == Ok([render(DATE_PATTERNS[Rem(leakType, 3)], LeakMillis(actual, jitter))]
            + HeaderLines(lines, leakType < 6, e) + (if leakType < 3 then [Join(lines[e + 1..])] else []))
  {
    FirstBlankIs(lines, e);
    assert FormatIndex(leakType) == Some(Rem(leakType, 3));
  }

  /** The first empty line is unique. */
  lemma FirstBlankIs(lines: seq<string>, e: nat)
    requires e < |lines| && |lines[e]| == 0
    requires forall j :: 0 <= j < e ==> |lines[j]| > 0
    ensures FirstBlank(lines) == Some(e)
  {
  }

  lemma SegmentsOfEmptyFile(lines: seq<string>, actual: nat, jitter: nat, leakType: int,
                            render: (string, nat) -> string)
    requires jitter <= JITTER_LIMIT
    requires FormatIndex(leakType).Some?
    requires lines == []
    ensures var date := render(DATE_PATTERNS[Rem(leakType, 3)], LeakMillis(actual, jitter));
      Segments(lines, actual, jitter, leakType, render)
      == Ok([date] + HeaderLines(lines, leakType < 6, 0) + (if leakType < 3 then [""] else []))
  {
    var date := render(DATE_PATTERNS[Rem(leakType, 3)], LeakMillis(actual, jitter));
    assert FirstBlank(lines) == None;
    assert [date] + HeaderLines(lines, leakType < 6, 0) == [date];
  }

  /** The leak date is always the first segment, rendered with the pattern of `leakType % 3`. */
  lemma DateComesFirst(lines: seq<string>, actual: nat, jitter: nat, leakType: int,
                       render: (string, nat) -> string)
    requires jitter <= JITTER_LIMIT
    requires Segments(lines, actual, jitter, leakType, render).Ok?
    ensures FormatIndex(leakType).Some?
    ensures var s := Segments(lines, actual, jitter, leakType, render).value;
      |s| >= 1 && s[0] == render(DATE_PATTERNS[FormatIndex(leakType).value], LeakMillis(actual, jitter))
  {
  }

  /**
   * When the file has an empty line, the segments are the date, the
   * selected header lines and, exactly when `leakType < 3`, the text after
   * the empty line.
   */
  lemma SegmentsLayout(lines: seq<string>, actual: nat, jitter: nat, leakType: int,
                       render: (string, nat) -> string)
    requires jitter <= JITTER_LIMIT
    requires FormatIndex(leakType).Some? && FirstBlank(lines).Some?
    ensures var s := Segments(lines, actual, jitter, leakType, render);
      var e := FirstBlank(lines).value;
      var hs := HeaderLines(lines, leakType < 6, e);
      s.Ok?
      && s.value[1..1 + |hs|] == hs
      && (|s.value| == |hs| + 2 <==> leakType < 3)
      && (leakType < 3 ==> s.value[|hs| + 1] == Join(lines[e + 1..]))
      && (|s.value| == |hs| + 1 <==> leakType >= 3)
  {
  }

  /**
   * For `leakType >= 6` only the date's tokens reach the multiset, whatever
   * the headers and body say (as long as the header block is ended).
   */
  lemma OnlyDateWords(lines: seq<string>, actual: nat, jitter: nat, leakType: int,
                      render: (string, nat) -> string, tokenize: string -> seq<string>)
    requires jitter <= JITTER_LIMIT
    requires leakType >= 6
    requires FirstBlank(lines).Some? || lines == []
    ensures FormatIndex(leakType).Some?
    ensures WordsOf(Segments(lines, actual, jitter, leakType, render), tokenize)
         == Ok(AddAll(map[], tokenize(render(DATE_PATTERNS[FormatIndex(leakType).value],
                                              LeakMillis(actual, jitter)))))
  {
    FormatIndexDefined(leakType);
    var e := if lines == [] then 0 else FirstBlank(lines).value;
    SegmentsOfEndedHeader(lines, actual, jitter, leakType, render, e);
    NoHeaderLines(lines, e);
    var date := render(DATE_PATTERNS[Rem(leakType, 3)], LeakMillis(actual, jitter));
    assert HeaderLines(lines, leakType < 6, e) == [];
    assert [date] + HeaderLines(lines, leakType < 6, e) + [] == [date];
    assert Segments(lines, actual, jitter, leakType, render) == Ok([date]);
    assert Tokens([date], tokenize) == tokenize(date) by {
      assert [date][..0] == [];
    }
    assert FormatIndex(leakType).value == Rem(leakType, 3);
  }

  /** The header block must end: a non-empty file without an empty line fails, whatever `leakType` is. */
  lemma UnendedHeaderFails(lines: seq<string>, actual: nat, jitter: nat, leakType: int,
                           render: (string, nat) -> string)
    requires jitter <= JITTER_LIMIT
    requires FormatIndex(leakType).Some?
    requires lines != [] && forall j :: 0 <= j < |lines| ==> |lines[j]| > 0
    ensures Segments(lines, actual, jitter, leakType, render) == Err(HeaderRunsToEndOfFile)
  {
  }

  /** A negative `leakType` that is not a multiple of three fails on the format index. */
  lemma NegativeIndexFails(lines: seq<string>, actual: nat, jitter: nat, leakType: int,
                           render: (string, nat) -> string)
    requires jitter <= JITTER_LIMIT
    requires leakType < 0 && leakType % 3 != 0
    ensures Segments(lines, actual, jitter, leakType, render) == Err(FormatIndexOutOfBounds(Rem(leakType, 3)))
    ensures Rem(leakType, 3) < 0
  {
    FormatIndexDefined(leakType);
  }

  /**
   * Every word of the encoded multiset occurs among the selected tokens; its
   * count is its number of occurrences there, and so at least one.
   */
  lemma WordCountsAreOccurrences(lines: seq<string>, actual: nat, jitter: nat, leakType: int,
                                 render: (string, nat) -> string, tokenize: string -> seq<string>)
    requires jitter <= JITTER_LIMIT
    requires Segments(lines, actual, jitter, leakType, render).Ok?
    ensures var ts := Tokens(Segments(lines, actual, jitter, leakType, render).value, tokenize);
      var words := WordsOf(Segments(lines, actual, jitter, leakType, render), tokenize).value;
      (forall w :: w in words <==> w in ts)
      && forall w :: w in words ==> words[w] == multiset(ts)[w] >= 1
  {
    BagCounts(Tokens(Segments(lines, actual, jitter, leakType, render).value, tokenize));
  }
}
