/**
 * `shuffleArray`: the Fisher-Yates shuffle the round assembler applies, in
 * place, to the merged discover results.  The step for index `i` (from the last
 * index down to 1) swaps `i` with `j = floor(r * (i + 1))`, where `r` is the
 * next draw; the step for `i` therefore consumes draw number `n - 1 - i`.
 */
module Shuffle {
  import opened FrameTypes

  /** `s` with positions `i` and `j` exchanged. */
  function Swap<T>(s: seq<T>, i: nat, j: nat): (r: seq<T>)
    requires i < |s| && j < |s|
    ensures |r| == |s| && r[i] == s[j] && r[j] == s[i]
  {
    s[i := s[j]][j := s[i]]
  }

  /** A swap only rearranges. */
  lemma SwapPermutes<T>(s: seq<T>, i: nat, j: nat)
    requires i < |s| && j < |s|
    ensures multiset(Swap(s, i, j)) == multiset(s)
  {
  }

  /** The index that the step for `i` picks, for a sequence of length `n`. */
  function StepIndex(rand: nat -> real, n: nat, i: nat): (j: nat)
    requires ValidDraws(rand) && i < n
    ensures j <= i
  {
    RandIndex(rand(n - 1 - i), i + 1)
  }

  /** The outcome of running the remaining steps `i, i - 1, ..., 1` on `s`. */
  function ShuffledFrom<T>(s: seq<T>, i: int, rand: nat -> real): (r: seq<T>)
    requires ValidDraws(rand) && i < |s|
    ensures |r| == |s|
    decreases i
  {
    if i <= 0 then s
    else ShuffledFrom(Swap(s, i, StepIndex(rand, |s|, i)), i - 1, rand)
  }

  /** The whole shuffle of `s` under the draws `rand`. */
  function Shuffled<T>(s: seq<T>, rand: nat -> real): seq<T>
    requires ValidDraws(rand)
  {
    ShuffledFrom(s, |s| - 1, rand)
  }

  /** How many draws the shuffle of `n` elements consumes. */
  function ShuffleDraws(n: nat): nat
  {
    if n == 0 then 0 else n - 1
  }

  /** The remaining steps only rearrange. */
  lemma {:induction false} ShuffledFromPermutes<T>(s: seq<T>, i: int, rand: nat -> real)
    requires ValidDraws(rand) && i < |s|
    ensures multiset(ShuffledFrom(s, i, rand)) == multiset(s)
    decreases i
  {
    if i > 0 {
      var t := Swap(s, i, StepIndex(rand, |s|, i));
      SwapPermutes(s, i, StepIndex(rand, |s|, i));
      ShuffledFromPermutes(t, i - 1, rand);
    }
  }

  /** The positions above `i`, already settled, keep their elements. */
  lemma {:induction false} ShuffledFromKeepsSettled<T>(s: seq<T>, i: int, rand: nat -> real, k: nat)
    requires ValidDraws(rand) && i < k < |s|
    ensures ShuffledFrom(s, i, rand)[k] == s[k]
    decreases i
  {
    if i > 0 {
      var j := StepIndex(rand, |s|, i);
      var t := Swap(s, i, j);
      assert t[k] == s[i := s[j]][j := s[i]][k] == s[k];
      ShuffledFromKeepsSettled(t, i - 1, rand, k);
    }
  }

  /** The shuffle is a permutation of its input. */
  lemma ShuffledIsPermutation<T>(s: seq<T>, rand: nat -> real)
    requires ValidDraws(rand)
    ensures |Shuffled(s, rand)| == |s|
    ensures multiset(Shuffled(s, rand)) == multiset(s)
  {
    ShuffledFromPermutes(s, |s| - 1, rand);
  }

  /** The last position receives the element at the index chosen by the first
      draw, and nothing moves it afterwards. */
  lemma LastPositionFromFirstDraw<T>(s: seq<T>, rand: nat -> real)
    requires ValidDraws(rand) && |s| >= 2
    ensures Shuffled(s, rand)[|s| - 1] == s[RandIndex(rand(0), |s|)]
  {
    var n := |s|;
    var t := Swap(s, n - 1, StepIndex(rand, n, n - 1));
    ShuffledFromKeepsSettled(t, n - 2, rand, n - 1);
  }

  /** One step of the shuffle: swapping `i` with the step's index leaves the
      steps below `i` to run. */
  lemma ShuffleStep<T>(s: seq<T>, i: nat, j: nat, rand: nat -> real)
    requires ValidDraws(rand) && 0 < i < |s| && j == StepIndex(rand, |s|, i)
    ensures ShuffledFrom(s, i, rand) == ShuffledFrom(Swap(s, i, j), i - 1, rand)
  {
  }

  /** `shuffleArray(arr)`: shuffles `a` in place. */
  method ShuffleArray<T>(a: array<T>, rand: nat -> real)
    requires ValidDraws(rand)
    modifies a
    ensures a[..] == Shuffled(old(a[..]), rand)
    ensures multiset(a[..]) == multiset(old(a[..]))
  {
    var i := a.Length - 1;
    while i > 0
      invariant -1 <= i < a.Length
      invariant ShuffledFrom(a[..], i, rand) == Shuffled(old(a[..]), rand)
    {
      var j := RandIndex(rand(a.Length - 1 - i), i + 1);
      ghost var before := a[..];
      ShuffleStep(before, i, j, rand);
      var t := a[i];
      a[i] := a[j];
      assert a[..] == before[i := before[j]];
      a[j] := t;
      assert a[..] == Swap(before, i, j);
      i := i - 1;
    }
    ShuffledIsPermutation(old(a[..]), rand);
  }
}
