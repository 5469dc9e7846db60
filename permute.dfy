/**
 * The incremental ("inside-out") shuffle `permute` of the training program.
 * The random source is replaced by the sequence of draws it made:
 * `choices[j]` is the value of `rand.nextInt(j + 1)` when the item
 * `files[j]` arrives, so `0 <= choices[j] <= j`.
 */
module Permutation {

  /** Draws that `rand.nextInt(r.size() + 1)` can return for `n` items in turn. */
  predicate ValidChoices(choices: seq<nat>, n: nat) {
    |choices| == n && forall j :: 0 <= j < |choices| ==> choices[j] <= j
  }

  /**
   * One step of the loop body: with draw `i`, either append `x` (when `i`
   * is the current size) or move `r[i]` to the end and put `x` at `i`.
   */
  function Place<T>(r: seq<T>, x: T, i: nat): seq<T>
    requires i <= |r|
  {
    if i == |r| then r + [x] else (r + [r[i]])[i := x]
  }

  /**
   * What one step does to the list: it grows by one, the new item sits at
   * the drawn position, the item that was there moves to the end, every other
   * position is unchanged, and the new item is added to the contents.
   */
  lemma PlaceEffect<T>(r: seq<T>, x: T, i: nat)
    requires i <= |r|
    ensures |Place(r, x, i)| == |r| + 1
    ensures Place(r, x, i)[i] == x
    ensures i < |r| ==> Place(r, x, i)[|r|] == r[i]
    ensures forall j :: 0 <= j < |r| && j != i ==> Place(r, x, i)[j] == r[j]
    ensures multiset(Place(r, x, i)) == multiset(r) + multiset{x}
  {
    if i < |r| {
      var grown := r + [r[i]];
      assert multiset(grown[i := x]) == multiset(grown) - multiset{r[i]} + multiset{x};
    }
  }

  /** The list `permute` returns for the given draws: the loop body applied to each item in turn. */
  function Shuffled<T>(files: seq<T>, choices: seq<nat>): (r: seq<T>)
    requires ValidChoices(choices, |files|)
    ensures |r| == |files|
    decreases |files|
  {
    if files == [] then []
    else
      var n := |files| - 1;
      Place(Shuffled(files[..n], choices[..n]), files[n], choices[n])
  }

  /** `permute` returns a rearrangement of its input: the same items, each as often. */
  lemma {:induction false} ShuffledIsPermutation<T>(files: seq<T>, choices: seq<nat>)
    requires ValidChoices(choices, |files|)
    ensures multiset(Shuffled(files, choices)) == multiset(files)
    decreases |files|
  {
    if files != [] {
      var n := |files| - 1;
      ShuffledIsPermutation(files[..n], choices[..n]);
      PlaceEffect(Shuffled(files[..n], choices[..n]), files[n], choices[n]);
      assert files == files[..n] + [files[n]];
    }
  }

  /** `permute(files, rand)`, with the draws of `rand` supplied as `choices`. */
  method Permute<T>(files: seq<T>, choices: seq<nat>) returns (r: seq<T>)
    requires ValidChoices(choices, |files|)
    ensures r == Shuffled(files, choices)
    ensures |r| == |files| && multiset(r) == multiset(files)
  {
    r := [];
    for j := 0 to |files|
      invariant r == Shuffled(files[..j], choices[..j])
    {
      var file := files[j];
      var i := choices[j];
      ShuffledStep(files, choices, j);
      if i == |r| {
        r := r + [file];
      } else {
        r := r + [r[i]];
        r := r[i := file];
      }
    }
    assert files[..|files|] == files && choices[..|files|] == choices;
    ShuffledIsPermutation(files, choices);
  }

  /** The result for one more item is the previous result with that item placed. */
  lemma ShuffledStep<T>(files: seq<T>, choices: seq<nat>, j: nat)
    requires ValidChoices(choices, |files|) && j < |files|
    ensures ValidChoices(choices[..j], j) && ValidChoices(choices[..j + 1], j + 1)
    ensures Shuffled(files[..j + 1], choices[..j + 1])
         == Place(Shuffled(files[..j], choices[..j]), files[j], choices[j])
  {
    assert files[..j + 1][..j] == files[..j] && choices[..j + 1][..j] == choices[..j];
  }

  /** If every draw equals the current size of the result, every item is appended: the order is kept. */
  lemma {:induction false} ShuffledIdentity<T>(files: seq<T>, choices: seq<nat>)
    requires |choices| == |files|
    requires forall j :: 0 <= j < |choices| ==> choices[j] == j
    ensures ValidChoices(choices, |files|)
    ensures Shuffled(files, choices) == files
    decreases |files|
  {
    if files != [] {
      var n := |files| - 1;
      ShuffledIdentity(files[..n], choices[..n]);
      assert files == files[..n] + [files[n]];
    }
  }

  /** No two positions hold the same item. */
  ghost predicate Distinct<T>(s: seq<T>) {
    forall i, j :: 0 <= i < j < |s| ==> s[i] != s[j]
  }

  /** Undoes `Place`: takes the item at `i` out and puts the last item back there. */
  function Unplace<T>(r': seq<T>, i: nat): (r: seq<T>)
    requires i < |r'|
    ensures |r| == |r'| - 1
    ensures Place(r, r'[i], i) == r'
  {
    var n := |r'| - 1;
    if i == n then r'[..n] else r'[..n][i := r'[n]]
  }

  /** Placing a new item is injective in the draw and in the list it is placed into. */
  lemma PlaceInjective<T>(r1: seq<T>, r2: seq<T>, x: T, i1: nat, i2: nat)
    requires i1 <= |r1| && i2 <= |r2| && |r1| == |r2|
    requires x !in r1 && x !in r2
    requires Place(r1, x, i1) == Place(r2, x, i2)
    ensures i1 == i2 && r1 == r2
  {
    PlaceEffect(r1, x, i1);
    PlaceEffect(r2, x, i2);
    var p := Place(r1, x, i1);
    assert r1 == Unplace(p, i1) == r2;
  }

  /** Distinct draws give distinct orders when the items are distinct. */
  lemma {:induction false} ShuffledInjective<T>(files: seq<T>, c1: seq<nat>, c2: seq<nat>)
    requires Distinct(files)
    requires ValidChoices(c1, |files|) && ValidChoices(c2, |files|)
    requires Shuffled(files, c1) == Shuffled(files, c2)
    ensures c1 == c2
    decreases |files|
  {
    if files != [] {
      var n := |files| - 1;
      var r1, r2 := Shuffled(files[..n], c1[..n]), Shuffled(files[..n], c2[..n]);
      LastIsNew(files, c1);
      LastIsNew(files, c2);
      PlaceInjective(r1, r2, files[n], c1[n], c2[n]);
      ShuffledInjective(files[..n], c1[..n], c2[..n]);
      assert c1 == c1[..n] + [c1[n]] && c2 == c2[..n] + [c2[n]];
    }
  }

  /** The item placed last does not occur in the list it is placed into. */
  lemma LastIsNew<T>(files: seq<T>, c: seq<nat>)
    requires Distinct(files) && files != []
    requires ValidChoices(c, |files|)
    ensures ValidChoices(c[..|files| - 1], |files| - 1)
    ensures files[|files| - 1] !in Shuffled(files[..|files| - 1], c[..|files| - 1])
  {
    var n := |files| - 1;
    NotInPrefix(files, n);
    ShuffledIsPermutation(files[..n], c[..n]);
    assert files[n] !in multiset(Shuffled(files[..n], c[..n]));
  }

  lemma NotInPrefix<T>(files: seq<T>, n: nat)
    requires Distinct(files) && n < |files|
    ensures files[n] !in multiset(files[..n])
    ensures Distinct(files[..n])
  {
    assert files[n] !in files[..n];
  }

  /** The first position of `x` in `s`. */
  ghost function IndexOf<T>(s: seq<T>, x: T): (i: nat)
    requires x in s
    ensures i < |s| && s[i] == x
  {
    if s[0] == x then 0 else 1 + IndexOf(s[1..], x)
  }

  /**
   * The draws that make `permute` produce the order `p` (read backwards:
   * the last item's position in `p` is the last draw).
   */
  ghost function ChoicesFor<T>(files: seq<T>, p: seq<T>): (c: seq<nat>)
    requires Distinct(files) && multiset(p) == multiset(files)
    ensures ValidChoices(c, |files|)
    decreases |files|
  {
    if files == [] then []
    else
      var n := |files| - 1;
      assert files == files[..n] + [files[n]];
      assert files[n] in multiset(p);
      var i := IndexOf(p, files[n]);
      assert |p| == |multiset(p)| == |files|;
      var rest := Unplace(p, i);
      UnplacedIsPermutation(files, p, i);
      NotInPrefix(files, n);
      ChoicesFor(files[..n], rest) + [i]
  }

  /** Taking the last item out of a permutation leaves a permutation of the other items. */
  lemma UnplacedIsPermutation<T>(files: seq<T>, p: seq<T>, i: nat)
    requires files != [] && multiset(p) == multiset(files)
    requires i < |p| && p[i] == files[|files| - 1]
    ensures multiset(Unplace(p, i)) == multiset(files[..|files| - 1])
  {
    var n := |files| - 1;
    var rest := Unplace(p, i);
    PlaceEffect(rest, p[i], i);
    assert multiset(Place(rest, p[i], i)) == multiset(rest) + multiset{p[i]};
    assert multiset(p) == multiset(rest) + multiset{files[n]};
    assert files == files[..n] + [files[n]];
    assert multiset(files) == multiset(files[..n]) + multiset{files[n]};
    assert multiset(rest) == multiset(p) - multiset{files[n]};
    assert multiset(files[..n]) == multiset(files) - multiset{files[n]};
  }

  /** Every order of distinct items is produced by some draws: `ChoicesFor` inverts `Shuffled`. */
  lemma {:induction false} ShuffledReachesEveryOrder<T>(files: seq<T>, p: seq<T>)
    requires Distinct(files) && multiset(p) == multiset(files)
    ensures Shuffled(files, ChoicesFor(files, p)) == p
    decreases |files|
  {
    if files != [] {
      var n := |files| - 1;
      assert files == files[..n] + [files[n]];
      assert files[n] in multiset(p);
      var i := IndexOf(p, files[n]);
      assert |p| == |multiset(p)| == |files|;
      var rest := Unplace(p, i);
      UnplacedIsPermutation(files, p, i);
      NotInPrefix(files, n);
      ShuffledReachesEveryOrder(files[..n], rest);
      var c := ChoicesFor(files, p);
      assert c[..n] == ChoicesFor(files[..n], rest) && c[n] == i;
    }
  }

  /**
   * For distinct items, each order is produced by exactly one sequence of
   * draws. Since there are as many draw sequences as orders, and
   * `rand.nextInt` draws uniformly, every order is equally likely.
   */
  lemma ShuffledIsBijective<T>(files: seq<T>, p: seq<T>, c: seq<nat>)
    requires Distinct(files) && multiset(p) == multiset(files)
    requires ValidChoices(c, |files|)
    ensures Shuffled(files, c) == p <==> c == ChoicesFor(files, p)
  {
    ShuffledReachesEveryOrder(files, p);
    if Shuffled(files, c) == p {
      ShuffledInjective(files, c, ChoicesFor(files, p));
    }
  }
}
