/** The random choices of fa.py, made explicit. Every call into Python's
    random module becomes data passed in by the caller:
    - randint/choice: an index;
    - sample(pool, k): k distinct indices into the pool, in draw order;
    - shuffle: the draws of the Fisher-Yates loop that Python's
      random.shuffle performs (for i from len-1 down to 1, swap x[i] with
      x[j] for a drawn j in [0, i]);
    - a retry loop `while y == x: y = randint(...)`: the list of redraws. */
module Choices {
  import opened Seqs

  /** Draws usable by Shuffle for any list of length at most n:
      draws[i] is the j drawn for position i, so it lies in [0, i]. */
  predicate ShuffleDraws(draws: seq<nat>, n: nat) {
    |draws| >= n && forall i :: 0 <= i < |draws| ==> draws[i] <= i
  }

  /** What random.sample(pool, k) is allowed to return, as positions into
      a pool of `size` elements: k distinct positions. */
  predicate IsSample(idx: seq<nat>, size: nat, k: nat) {
    |idx| == k && k <= size && Distinct(idx) &&
    forall j :: 0 <= j < |idx| ==> idx[j] < size
  }

  /** random.shuffle: the Fisher-Yates loop, swapping position i with the
      drawn position draws[i] for i from |s| - 1 down to 1. */
  method Shuffle<T>(s: seq<T>, draws: seq<nat>) returns (r: seq<T>)
    requires ShuffleDraws(draws, |s|)
    ensures |r| == |s|
    ensures multiset(r) == multiset(s)
  {
    r := s;
    var i := |s| - 1;
    while i >= 1
      invariant -1 <= i < |s|
      invariant |r| == |s|
      invariant multiset(r) == multiset(s)
    {
      var j := draws[i];
      var ri, rj := r[i], r[j];
      ghost var before := r;
      r := r[i := rj][j := ri];
      SwapMultiset(before, i, j);
      i := i - 1;
    }
  }

  lemma SwapMultiset<T>(s: seq<T>, i: nat, j: nat)
    requires i < |s| && j < |s|
    ensures multiset(s[i := s[j]][j := s[i]]) == multiset(s)
  {
    var t1 := s[i := s[j]];
    assert multiset(t1) == multiset(s) - multiset{s[i]} + multiset{s[j]};
    assert t1[j] == s[j];
    assert multiset(t1[j := s[i]]) == multiset(t1) - multiset{t1[j]} + multiset{s[i]};
  }

  /** The first redraw that differs from x. */
  predicate FirstRedraw(redraws: seq<nat>, x: nat, y: nat) {
    y != x &&
    exists k :: 0 <= k < |redraws| && redraws[k] == y &&
                forall m :: 0 <= m < k ==> redraws[m] == x
  }

  /** The retry loop `y = x; while y == x: y = <draw>`: the first redraw
      that differs from x. */
  method DrawDifferent(x: nat, redraws: seq<nat>) returns (y: nat)
    requires exists k :: 0 <= k < |redraws| && redraws[k] != x
    ensures FirstRedraw(redraws, x, y)
  {
    y := x;
    var used := 0;
    while y == x
      invariant 0 <= used <= |redraws|
      invariant forall m :: 0 <= m < used - 1 ==> redraws[m] == x
      invariant used == 0 ==> y == x
      invariant used > 0 ==> y == redraws[used - 1]
      invariant y == x ==> exists k :: used <= k < |redraws| && redraws[k] != x
      decreases |redraws| - used
    {
      y := redraws[used];
      used := used + 1;
    }
  }
}
