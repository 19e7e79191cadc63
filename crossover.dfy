/** Problem.crossover of fa.py: neighbour-chaining recombination of two
    parent chromosomes into one child. */
module Crossovers {
  import opened Seqs
  import opened Choices

  /** The elements met when walking leftward from position p with wrap-around:
      positions p-1, p-2, ..., 0, n-1, ..., p. */
  function LeftWalk<T>(s: seq<T>, p: nat): seq<T>
    requires p < |s|
  {
    Rev(s[..p]) + Rev(s[p..])
  }

  /** The elements met when walking rightward from position q with wrap-around:
      positions q+1, ..., n-1, 0, ..., q. */
  function RightWalk<T>(s: seq<T>, q: nat): seq<T>
    requires q < |s|
  {
    s[q + 1..] + s[..q + 1]
  }

  /** Position reached after a + 1 steps to the left of p, i.e. (p - 1 - a) mod n. */
  function LeftPos(p: nat, a: nat, n: nat): nat
    requires p < n && a < n
  {
    if a < p then p - 1 - a else p - 1 - a + n
  }

  /** Position reached after b + 1 steps to the right of q, i.e. (q + 1 + b) mod n. */
  function RightPos(q: nat, b: nat, n: nat): nat
    requires q < n && b < n
  {
    if q + 1 + b < n then q + 1 + b else q + 1 + b - n
  }

  lemma LeftWalkAt<T>(s: seq<T>, p: nat, a: nat)
    requires p < |s| && a < |s|
    ensures |LeftWalk(s, p)| == |s|
    ensures LeftPos(p, a, |s|) < |s| && LeftWalk(s, p)[a] == s[LeftPos(p, a, |s|)]
  {
  }

  lemma RightWalkAt<T>(s: seq<T>, q: nat, b: nat)
    requires q < |s| && b < |s|
    ensures |RightWalk(s, q)| == |s|
    ensures RightPos(q, b, |s|) < |s| && RightWalk(s, q)[b] == s[RightPos(q, b, |s|)]
  {
  }

  lemma LeftWalkMultiset<T>(s: seq<T>, p: nat)
    requires p < |s|
    ensures multiset(LeftWalk(s, p)) == multiset(s)
  {
    RevMultiset(s[..p]);
    RevMultiset(s[p..]);
    assert s == s[..p] + s[p..];
  }

  /** The chain grown from the pivot: the first a towns met walking left
      along ga (nearest first, so reversed), the pivot, then the first b towns
      met walking right along gb. */
  function Chain(ga: seq<int>, gb: seq<int>, pivot: nat, q: nat, a: nat, b: nat): seq<int>
    requires pivot < |ga| && q < |gb|
    requires a <= |ga| && b <= |gb|
  {
    Rev(LeftWalk(ga, pivot)[..a]) + [ga[pivot]] + RightWalk(gb, q)[..b]
  }

  /** The loop of Problem.crossover stops with a towns on the left and b on
      the right of the pivot. In every round the left side moves before the
      right side. So the left side stopped in round a + 1, when its next
      town was already in the chain of that moment: a towns on the left and
      min(a, b) on the right. The right side stopped in round b + 1, when the
      chain had min(a, b + 1) towns on the left and b on the right. */
  ghost predicate StopsAt(ga: seq<int>, gb: seq<int>, pivot: nat, q: nat, a: nat, b: nat)
    requires pivot < |ga| && q < |gb| && |gb| == |ga|
  {
    a < |ga| && b < |ga| &&
    Distinct(Chain(ga, gb, pivot, q, a, b)) &&
    LeftWalk(ga, pivot)[a] in Chain(ga, gb, pivot, q, a, Min(a, b)) &&
    RightWalk(gb, q)[b] in Chain(ga, gb, pivot, q, Min(a, b + 1), b)
  }

  /** `chain` is the chain that the lockstep loop grows from the pivot. */
  ghost predicate StoppedChain(ga: seq<int>, gb: seq<int>, pivot: nat, q: nat, chain: seq<int>)
    requires pivot < |ga| && q < |gb| && |gb| == |ga|
  {
    exists a: nat, b: nat :: StopsAt(ga, gb, pivot, q, a, b) && chain == Chain(ga, gb, pivot, q, a, b)
  }

  /** A chain with fewer towns on each side sits inside a longer one, at the
      same distance from the pivot. */
  lemma SubChain(ga: seq<int>, gb: seq<int>, pivot: nat, q: nat, a: nat, b: nat, a0: nat, b0: nat)
    requires pivot < |ga| && q < |gb| && a0 <= a <= |ga| && b0 <= b <= |gb|
    ensures a + 1 + b0 <= |Chain(ga, gb, pivot, q, a, b)|
    ensures Chain(ga, gb, pivot, q, a0, b0) == Chain(ga, gb, pivot, q, a, b)[a - a0..a + 1 + b0]
  {
    var lw, rw := LeftWalk(ga, pivot), RightWalk(gb, q);
    var c0, c := Chain(ga, gb, pivot, q, a0, b0), Chain(ga, gb, pivot, q, a, b);
    forall i | 0 <= i < |c0| ensures c0[i] == c[a - a0 + i] {
      if i < a0 {
        assert c0[i] == lw[a0 - 1 - i] && c[a - a0 + i] == lw[a0 - 1 - i];
      } else if i > a0 {
        assert c0[i] == rw[i - a0 - 1] && c[a - a0 + i] == rw[i - a0 - 1];
      }
    }
  }

  /** In a chain with no town twice, the towns beyond a shorter chain inside
      it are not in that shorter chain. */
  lemma BeyondSubChain(ga: seq<int>, gb: seq<int>, pivot: nat, q: nat, a: nat, b: nat, a0: nat, b0: nat)
    requires pivot < |ga| && q < |gb| && a0 <= a <= |ga| && b0 <= b <= |gb|
    requires Distinct(Chain(ga, gb, pivot, q, a, b))
    ensures a0 < a ==> LeftWalk(ga, pivot)[a0] !in Chain(ga, gb, pivot, q, a0, b0)
    ensures b0 < b ==> RightWalk(gb, q)[b0] !in Chain(ga, gb, pivot, q, a0, b0)
  {
    SubChain(ga, gb, pivot, q, a, b, a0, b0);
    var c := Chain(ga, gb, pivot, q, a, b);
    var lo, hi := a - a0, a + 1 + b0;
    if a0 < a {
      assert c[a - 1 - a0] == LeftWalk(ga, pivot)[a0];
      OutsideSlice(c, lo, hi, a - 1 - a0);
    }
    if b0 < b {
      assert c[a + 1 + b0] == RightWalk(gb, q)[b0];
      OutsideSlice(c, lo, hi, a + 1 + b0);
    }
  }

  lemma OutsideSlice<T>(s: seq<T>, lo: nat, hi: nat, i: nat)
    requires Distinct(s) && lo <= hi <= |s| && i < |s| && (i < lo || hi <= i)
    ensures s[i] !in s[lo..hi]
  {
  }

  /** Two stopping rounds that both fit the chain loop have the same left
      count: the side that stopped first saw a town that the longer chain
      of the other shows to be new. */
  lemma LeftRoundsAgree(ga: seq<int>, gb: seq<int>, pivot: nat, q: nat, a: nat, b: nat, a2: nat, b2: nat)
    requires pivot < |ga| && q < |gb| && |gb| == |ga|
    requires StopsAt(ga, gb, pivot, q, a, b) && StopsAt(ga, gb, pivot, q, a2, b2)
    ensures a <= a2
  {
    if a2 < a {
      BeyondSubChain(ga, gb, pivot, q, a, b, a2, Min(a2, b));
      if Min(a2, b2) <= Min(a2, b) {
        SubChain(ga, gb, pivot, q, a2, Min(a2, b), a2, Min(a2, b2));
        assert false;
      }
      BeyondSubChain(ga, gb, pivot, q, a2, b2, b + 1, b);
      assert false;
    }
  }

  lemma RightRoundsAgree(ga: seq<int>, gb: seq<int>, pivot: nat, q: nat, a: nat, b: nat, b2: nat)
    requires pivot < |ga| && q < |gb| && |gb| == |ga|
    requires StopsAt(ga, gb, pivot, q, a, b) && StopsAt(ga, gb, pivot, q, a, b2)
    ensures b <= b2
  {
    if b2 < b {
      BeyondSubChain(ga, gb, pivot, q, a, b, Min(a, b2 + 1), b2);
      assert false;
    }
  }

  /** The stopping rounds, hence the chain, are determined by the parents
      and the pivot: StoppedChain describes exactly one chain. */
  lemma StoppedChainUnique(ga: seq<int>, gb: seq<int>, pivot: nat, q: nat, c1: seq<int>, c2: seq<int>)
    requires pivot < |ga| && q < |gb| && |gb| == |ga|
    requires StoppedChain(ga, gb, pivot, q, c1) && StoppedChain(ga, gb, pivot, q, c2)
    ensures c1 == c2
  {
    var a1: nat, b1: nat :| StopsAt(ga, gb, pivot, q, a1, b1) && c1 == Chain(ga, gb, pivot, q, a1, b1);
    var a2: nat, b2: nat :| StopsAt(ga, gb, pivot, q, a2, b2) && c2 == Chain(ga, gb, pivot, q, a2, b2);
    LeftRoundsAgree(ga, gb, pivot, q, a1, b1, a2, b2);
    LeftRoundsAgree(ga, gb, pivot, q, a2, b2, a1, b1);
    RightRoundsAgree(ga, gb, pivot, q, a1, b1, b2);
    RightRoundsAgree(ga, gb, pivot, q, a1, b2, b1);
  }

  /** What Problem.crossover promises of its child: a permutation of ga
      that starts with the chain grown from the pivot until both sides met a
      town already in it. */
  ghost predicate IsOffspring(ga: seq<int>, gb: seq<int>, pivot: nat, child: seq<int>) {
    pivot < |ga| && |gb| == |ga| && multiset(gb) == multiset(ga) &&
    |child| == |ga| && multiset(child) == multiset(ga) &&
    exists k :: 0 < k <= |child| && StoppedChain(ga, gb, pivot, PivotInB(ga, gb, pivot), child[..k])
  }

  /** Parents [0, 1, 2, 3] twice and the pivot at town 1: the lockstep loop
      adds 0 and 2 in the first round, 3 on the left in the second, where the
      right side meets 3 and stops, and the left side stops on 2 in the
      third. [3, 0, 1, 2] is the only child the contract admits. */
  lemma ChainExample(child: seq<int>)
    requires IsOffspring([0, 1, 2, 3], [0, 1, 2, 3], 1, child)
    ensures child == [3, 0, 1, 2]
  {
    var ga: seq<int> := [0, 1, 2, 3];
    ExamplePivot();
    var k :| 0 < k <= |child| && StoppedChain(ga, ga, 1, 1, child[..k]);
    ExampleStops();
    StoppedChainUnique(ga, ga, 1, 1, child[..k], [3, 0, 1, 2]);
    assert child == child[..k];
  }

  lemma ExamplePivot()
    ensures PivotInB([0, 1, 2, 3], [0, 1, 2, 3], 1) == 1
  {
    var ga: seq<int> := [0, 1, 2, 3];
    assert ga[0] != ga[1];
  }

  lemma ExampleStops()
    ensures Chain([0, 1, 2, 3], [0, 1, 2, 3], 1, 1, 2, 1) == [3, 0, 1, 2]
    ensures StopsAt([0, 1, 2, 3], [0, 1, 2, 3], 1, 1, 2, 1)
  {
    var ga: seq<int> := [0, 1, 2, 3];
    ChainFromPositions(ga, ga, 1, 1, 2, 1, [3, 0], [2]);
    LeftWalkAt(ga, 1, 2);
    RightWalkAt(ga, 1, 1);
  }

  /** Python's (x - 1) % n for a cursor x in [0, n). */
  function StepLeft(x: nat, n: nat): (r: nat)
    requires x < n
    ensures r == if x == 0 then n - 1 else x - 1
  {
    (x - 1) % n
  }

  /** Python's (y + 1) % n for a cursor y in [0, n). */
  function StepRight(y: nat, n: nat): (r: nat)
    requires y < n
    ensures r == if y == n - 1 then 0 else y + 1
  {
    (y + 1) % n
  }

  /** The elements of s, in order, that do not occur in g. */
  function Missing(s: seq<int>, g: seq<int>): seq<int> {
    if s == [] then []
    else Missing(s[..|s| - 1], g) + (if s[|s| - 1] in g then [] else [s[|s| - 1]])
  }

  lemma {:induction false} MissingProps(s: seq<int>, g: seq<int>)
    requires Distinct(s)
    ensures Distinct(Missing(s, g))
    ensures Elems(Missing(s, g)) == Elems(s) - Elems(g)
  {
    if s != [] {
      var p, x := s[..|s| - 1], s[|s| - 1];
      assert s == p + [x];
      assert Distinct(p);
      MissingProps(p, g);
      assert Elems(s) == Elems(p) + {x};
      assert x in g <==> x in Elems(g);
      if x !in g {
        assert x !in Elems(Missing(p, g));
        DisjointConcatDistinct(Missing(p, g), [x]);
        assert Elems(Missing(s, g)) == Elems(Missing(p, g)) + {x};
      } else {
        assert Missing(s, g) == Missing(p, g);
      }
    }
  }

  /** Walking all n positions collects exactly the ids not in g. */
  lemma MissingOfWalk(ga: seq<int>, x0: nat, g: seq<int>)
    requires Distinct(ga) && x0 < |ga|
    requires Distinct(g) && Elems(g) <= Elems(ga)
    ensures Distinct(Missing(LeftWalk(ga, x0), g))
    ensures Elems(Missing(LeftWalk(ga, x0), g)) == Elems(ga) - Elems(g)
    ensures |Missing(LeftWalk(ga, x0), g)| == |ga| - |g|
  {
    var w := LeftWalk(ga, x0);
    LeftWalkMultiset(ga, x0);
    PermutationDistinct(ga, w);
    assert Elems(w) == Elems(ga) by {
      forall v ensures v in Elems(w) <==> v in Elems(ga) {
        assert v in w <==> v in multiset(w);
        assert v in ga <==> v in multiset(ga);
      }
    }
    MissingProps(w, g);
    var m := Missing(w, g);
    DistinctCard(m);
    DistinctCard(g);
    DistinctCard(ga);
    assert |Elems(ga) - Elems(g)| == |Elems(ga)| - |Elems(g)|;
  }

  lemma {:induction false} MissingConcat(s: seq<int>, t: seq<int>, g: seq<int>)
    ensures Missing(s + t, g) == Missing(s, g) + Missing(t, g)
  {
    if t != [] {
      var p := t[..|t| - 1];
      assert (s + t)[..|s + t| - 1] == s + p;
      MissingConcat(s, p, g);
    } else {
      assert s + t == s;
    }
  }

  /** A chain and the ids it misses, each once, make up a permutation of ga. */
  lemma CompletePermutation(ga: seq<int>, g: seq<int>, rest: seq<int>)
    requires Distinct(ga) && Distinct(g) && Distinct(rest)
    requires Elems(g) <= Elems(ga) && Elems(rest) == Elems(ga) - Elems(g)
    ensures multiset(g + rest) == multiset(ga)
  {
    forall v | v in g ensures v !in rest {
      assert v in Elems(g);
    }
    DisjointConcatDistinct(g, rest);
    assert Elems(g + rest) == Elems(g) + Elems(rest);
    SameElemsPermutation(g + rest, ga);
  }

  lemma SameElems(ga: seq<int>, gb: seq<int>)
    requires multiset(gb) == multiset(ga)
    ensures Elems(gb) == Elems(ga) && |gb| == |ga|
  {
    assert |gb| == |multiset(gb)| == |ga|;
    forall v ensures v in Elems(gb) <==> v in Elems(ga) {
      assert v in gb <==> v in multiset(gb);
      assert v in ga <==> v in multiset(ga);
    }
  }

  /** Position of the pivot's town in gb. */
  function PivotInB(ga: seq<int>, gb: seq<int>, pivot: nat): (q: nat)
    requires pivot < |ga| && multiset(gb) == multiset(ga)
    ensures q < |gb| && gb[q] == ga[pivot]
  {
    assert ga[pivot] in multiset(gb);
    IndexOf(gb, ga[pivot])
  }

  /** The shape of the chain during the loop of Problem.crossover: the a towns
      left of the pivot along ga (nearest last), the pivot's town, and the b
      towns right of it along gb; no town twice, all of them towns of ga. */
  ghost predicate ChainState(ga: seq<int>, gb: seq<int>, pivot: nat, q: nat,
                             g: seq<int>, left: seq<int>, right: seq<int>, a: nat, b: nat)
  {
    pivot < |ga| && q < |gb| == |ga| && a + 1 + b <= |ga| &&
    |left| == a && |right| == b &&
    (forall k :: 0 <= k < a ==> left[a - 1 - k] == ga[LeftPos(pivot, k, |ga|)]) &&
    (forall k :: 0 <= k < b ==> right[k] == gb[RightPos(q, k, |ga|)]) &&
    g == left + [ga[pivot]] + right &&
    Distinct(g) && Elems(g) <= Elems(ga)
  }

  lemma ChainSize(ga: seq<int>, gb: seq<int>, pivot: nat, q: nat,
                  g: seq<int>, left: seq<int>, right: seq<int>, a: nat, b: nat)
    requires ChainState(ga, gb, pivot, q, g, left, right, a, b)
    ensures |g| == a + 1 + b <= |ga|
  {
  }

  lemma GrowLeft(ga: seq<int>, gb: seq<int>, pivot: nat, q: nat,
                 g: seq<int>, left: seq<int>, right: seq<int>, a: nat, b: nat)
    requires Distinct(ga) && ChainState(ga, gb, pivot, q, g, left, right, a, b)
    requires a < |ga| && ga[LeftPos(pivot, a, |ga|)] !in g
    ensures var v := ga[LeftPos(pivot, a, |ga|)];
      ChainState(ga, gb, pivot, q, [v] + g, [v] + left, right, a + 1, b)
  {
    var v := ga[LeftPos(pivot, a, |ga|)];
    var r := Prepend(ga, g, v);
    assert [v] + g == [v] + left + [ga[pivot]] + right;
  }

  lemma GrowRight(ga: seq<int>, gb: seq<int>, pivot: nat, q: nat,
                  g: seq<int>, left: seq<int>, right: seq<int>, a: nat, b: nat)
    requires Distinct(ga) && Elems(gb) == Elems(ga) && ChainState(ga, gb, pivot, q, g, left, right, a, b)
    requires b < |ga| && gb[RightPos(q, b, |ga|)] !in g
    ensures var v := gb[RightPos(q, b, |ga|)];
      ChainState(ga, gb, pivot, q, g + [v], left, right + [v], a, b + 1)
  {
    var v := gb[RightPos(q, b, |ga|)];
    assert v in Elems(gb);
    var r := Append(ga, g, v);
  }

  /** The chain loop of Problem.crossover: starting from [town], the cursor x
      steps left along ga and y steps right along gb on every round; while a
      side is active its town is prepended (left) or appended (right) unless it
      is already in the chain, which stops that side. Returns the chain and
      the final x. */
  method GrowChain(ga: seq<int>, gb: seq<int>, pivot: nat) returns (g: seq<int>, x: nat)
    requires Distinct(ga) && multiset(gb) == multiset(ga)
    requires pivot < |ga|
    ensures x < |ga|
    ensures Distinct(g) && Elems(g) <= Elems(ga) && |g| <= |ga| && ga[pivot] in g
    ensures |gb| == |ga| && StoppedChain(ga, gb, pivot, PivotInB(ga, gb, pivot), g)
  {
    SameElems(ga, gb);
    var n := |ga|;
    var fa, fb := true, true;
    var town := ga[pivot];
    ghost var q := PivotInB(ga, gb, pivot);
    x := IndexOf(ga, town);
    var y := IndexOf(gb, town);
    g := [town];
    ghost var a: nat, b: nat := 0, 0;
    ghost var left, right := [], [];
    assert g == left + [ga[pivot]] + right;

    while fa || fb
      invariant ChainState(ga, gb, pivot, q, g, left, right, a, b)
      invariant LeftCursor(ga, pivot, left, right, a, b, x, fa) && RightCursor(ga, gb, pivot, q, left, right, a, b, y, fb)
      invariant Lockstep(a, b, fa, fb, false)
      decreases n - (a + 1 + b) + (if fa then 1 else 0) + (if fb then 1 else 0)
    {
      x, g, left, a, fa := LeftSide(ga, gb, pivot, q, g, left, right, a, b, x, fa, y, fb);
      y, g, right, b, fb := RightSide(ga, gb, pivot, q, g, left, right, a, b, x, fa, y, fb);
      ChainSize(ga, gb, pivot, q, g, left, right, a, b);
    }
    StoppedFromCursors(ga, gb, pivot, q, g, left, right, a, b);
  }

  /** The left cursor x of the chain loop: while the left side is active it
      sits a steps left of the pivot; once stopped, the town a steps left of
      the pivot was in the chain when the left side looked at it, which then
      had min(a, b) towns on the right. */
  ghost predicate LeftCursor(ga: seq<int>, pivot: nat, left: seq<int>, right: seq<int>,
                             a: nat, b: nat, x: nat, fa: bool) {
    pivot < |ga| && x < |ga| && |left| == a && |right| == b &&
    (fa ==> x == if a <= pivot then pivot - a else pivot - a + |ga|) &&
    (!fa ==> a < |ga| && ga[LeftPos(pivot, a, |ga|)] in left + [ga[pivot]] + right[..Min(a, b)])
  }

  /** The right cursor y, likewise b steps right of the pivot's position q
      in gb; once stopped, its town was in the chain, which then had
      min(a, b + 1) towns on the left. */
  ghost predicate RightCursor(ga: seq<int>, gb: seq<int>, pivot: nat, q: nat, left: seq<int>, right: seq<int>,
                              a: nat, b: nat, y: nat, fb: bool) {
    pivot < |ga| && q < |ga| == |gb| && y < |ga| && |left| == a && |right| == b &&
    (fb ==> y == if q + b < |ga| then q + b else q + b - |ga|) &&
    (!fb ==> b < |ga| && gb[RightPos(q, b, |ga|)] in left[a - Min(a, b + 1)..] + [ga[pivot]] + right)
  }

  /** How far one side can be ahead of the other in the lockstep loop, at
      the head of a round (mid false) or between its two halves (mid true). */
  predicate Lockstep(a: nat, b: nat, fa: bool, fb: bool, mid: bool) {
    if !mid then (fa ==> b <= a) && (fb ==> a <= b) && (fa && !fb ==> b < a)
    else (fa ==> b < a) && (fb ==> a <= b + 1) && (fb && !fa ==> a <= b)
  }

  /** The left half of one round of the chain loop: x steps left, and while
      the left side is active its town is prepended unless already there. */
  method LeftSide(ga: seq<int>, gb: seq<int>, pivot: nat, ghost q: nat, g: seq<int>,
                  ghost left: seq<int>, ghost right: seq<int>, ghost a: nat, ghost b: nat, x: nat, fa: bool,
                  ghost y: nat, ghost fb: bool)
    returns (x': nat, g': seq<int>, ghost left': seq<int>, ghost a': nat, fa': bool)
    requires Distinct(ga) && ChainState(ga, gb, pivot, q, g, left, right, a, b)
    requires LeftCursor(ga, pivot, left, right, a, b, x, fa) && RightCursor(ga, gb, pivot, q, left, right, a, b, y, fb)
    requires Lockstep(a, b, fa, fb, false)
    ensures ChainState(ga, gb, pivot, q, g', left', right, a', b)
    ensures LeftCursor(ga, pivot, left', right, a', b, x', fa') && RightCursor(ga, gb, pivot, q, left', right, a', b, y, fb)
    ensures Lockstep(a', b, fa', fb, true)
    ensures fa' ==> fa && a' == a + 1 && g' == [ga[x']] + g
    ensures !fa' ==> a' == a && g' == g
  {
    x' := StepLeft(x, |ga|);
    g', left', a', fa' := g, left, a, fa;
    if fa {
      if ga[x'] !in g {
        GrowLeft(ga, gb, pivot, q, g, left, right, a, b);
        g', left', a' := [ga[x']] + g, [ga[x']] + left, a + 1;
        assert forall v :: v in g ==> v in g';
        if !fb {
          assert left'[a' - Min(a', b + 1)..] == left[a - Min(a, b + 1)..];
        }
      } else {
        fa' := false;
        assert right[..Min(a, b)] == right;
      }
    }
  }

  /** The right half of one round: y steps right along gb, and while the
      right side is active its town is appended unless already there. */
  method RightSide(ga: seq<int>, gb: seq<int>, pivot: nat, ghost q: nat, g: seq<int>,
                   ghost left: seq<int>, ghost right: seq<int>, ghost a: nat, ghost b: nat,
                   ghost x: nat, ghost fa: bool, y: nat, fb: bool)
    returns (y': nat, g': seq<int>, ghost right': seq<int>, ghost b': nat, fb': bool)
    requires Distinct(ga) && Elems(gb) == Elems(ga) && ChainState(ga, gb, pivot, q, g, left, right, a, b)
    requires LeftCursor(ga, pivot, left, right, a, b, x, fa) && RightCursor(ga, gb, pivot, q, left, right, a, b, y, fb)
    requires Lockstep(a, b, fa, fb, true)
    ensures ChainState(ga, gb, pivot, q, g', left, right', a, b')
    ensures LeftCursor(ga, pivot, left, right', a, b', x, fa) && RightCursor(ga, gb, pivot, q, left, right', a, b', y', fb')
    ensures Lockstep(a, b', fa, fb', false)
    ensures fb' ==> fb && b' == b + 1 && g' == g + [gb[y']]
    ensures !fb' ==> b' == b && g' == g
  {
    y' := StepRight(y, |ga|);
    g', right', b', fb' := g, right, b, fb;
    if fb {
      if gb[y'] !in g {
        GrowRight(ga, gb, pivot, q, g, left, right, a, b);
        g', right', b' := g + [gb[y']], right + [gb[y']], b + 1;
        assert forall v :: v in g ==> v in g';
        if !fa {
          assert right'[..Min(a, b')] == right[..Min(a, b)];
        }
      } else {
        fb' := false;
        assert left[a - Min(a, b + 1)..] == left;
      }
    }
  }

  /** When both sides have stopped, the chain is the one that stopped in
      the rounds the cursors record. */
  lemma StoppedFromCursors(ga: seq<int>, gb: seq<int>, pivot: nat, q: nat,
                           g: seq<int>, left: seq<int>, right: seq<int>, a: nat, b: nat)
    requires ChainState(ga, gb, pivot, q, g, left, right, a, b)
    requires a < |ga| && ga[LeftPos(pivot, a, |ga|)] in left + [ga[pivot]] + right[..Min(a, b)]
    requires b < |ga| && gb[RightPos(q, b, |ga|)] in left[a - Min(a, b + 1)..] + [ga[pivot]] + right
    ensures StopsAt(ga, gb, pivot, q, a, b) && g == Chain(ga, gb, pivot, q, a, b)
  {
    var ma, mb := Min(a, b + 1), Min(a, b);
    ChainFromPositions(ga, gb, pivot, q, a, b, left, right);
    ChainFromPositions(ga, gb, pivot, q, a, mb, left, right[..mb]);
    ChainFromPositions(ga, gb, pivot, q, ma, b, left[a - ma..], right);
    LeftWalkAt(ga, pivot, a);
    RightWalkAt(gb, q, b);
  }

  /** A chain described position by position is the Chain of its walks. */
  lemma ChainFromPositions(ga: seq<int>, gb: seq<int>, pivot: nat, q: nat, a: nat, b: nat,
                           left: seq<int>, right: seq<int>)
    requires pivot < |ga| && q < |gb| == |ga| && a < |ga| && b < |ga|
    requires |left| == a && |right| == b
    requires forall k :: 0 <= k < a ==> left[a - 1 - k] == ga[LeftPos(pivot, k, |ga|)]
    requires forall k :: 0 <= k < b ==> right[k] == gb[RightPos(q, k, |ga|)]
    ensures left + [ga[pivot]] + right == Chain(ga, gb, pivot, q, a, b)
  {
    var lw, rw := LeftWalk(ga, pivot), RightWalk(gb, q);
    forall k | 0 <= k < a ensures left[k] == Rev(lw[..a])[k] {
      LeftWalkAt(ga, pivot, a - 1 - k);
    }
    forall k | 0 <= k < b ensures right[k] == rw[..b][k] {
      RightWalkAt(gb, q, k);
    }
    assert left == Rev(lw[..a]);
    assert right == rw[..b];
  }

  /** Adding an id of ga that the chain lacks keeps the chain distinct and
      no longer than ga. */
  function Prepend(ga: seq<int>, g: seq<int>, v: int): (r: seq<int>)
    requires Distinct(ga) && Distinct(g) && Elems(g) <= Elems(ga)
    requires v in ga && v !in g
    ensures r == [v] + g && Distinct(r) && Elems(r) <= Elems(ga) && |r| <= |ga|
  {
    DisjointConcatDistinct([v], g);
    assert Elems([v] + g) == {v} + Elems(g);
    DistinctCard(ga);
    DistinctInSet([v] + g, Elems(ga));
    [v] + g
  }

  function Append(ga: seq<int>, g: seq<int>, v: int): (r: seq<int>)
    requires Distinct(ga) && Distinct(g) && Elems(g) <= Elems(ga)
    requires v in ga && v !in g
    ensures r == g + [v] && Distinct(r) && Elems(r) <= Elems(ga) && |r| <= |ga|
  {
    DisjointConcatDistinct(g, [v]);
    assert Elems(g + [v]) == Elems(g) + {v};
    DistinctCard(ga);
    DistinctInSet(g + [v], Elems(ga));
    g + [v]
  }

  /** The fill walk of Problem.crossover: x keeps stepping left along ga and
      every town not in the chain is collected, until the chain and the
      collected towns number n. It collects exactly the missing towns, in
      walk order, each once, before x comes back to where it started. */
  method CollectRemaining(ga: seq<int>, g: seq<int>, x: nat) returns (remaining: seq<int>)
    requires Distinct(ga) && x < |ga|
    requires Distinct(g) && Elems(g) <= Elems(ga)
    ensures remaining == Missing(LeftWalk(ga, x), g)
    ensures Distinct(remaining) && Elems(remaining) == Elems(ga) - Elems(g)
    ensures |g| + |remaining| == |ga|
  {
    var n := |ga|;
    var cursor := x;
    ghost var w := LeftWalk(ga, x);
    ghost var t := 0;
    MissingOfWalkLength(ga, x, g);
    remaining := [];
    while |g| + |remaining| != n
      invariant Collecting(ga, x, g, t, cursor, remaining)
      decreases n - t
    {
      cursor, remaining := CollectOne(ga, x, g, t, cursor, remaining);
      t := t + 1;
    }
    CollectDone(ga, x, g, t, cursor, remaining);
  }

  /** One step of the fill walk: the cursor steps left, and its town is
      collected unless the chain has it. */
  method CollectOne(ga: seq<int>, ghost x: nat, g: seq<int>, ghost t: nat, cursor: nat, remaining: seq<int>)
    returns (cursor': nat, remaining': seq<int>)
    requires Collecting(ga, x, g, t, cursor, remaining) && t < |ga|
    requires |g| + |Missing(LeftWalk(ga, x), g)| == |ga|
    ensures Collecting(ga, x, g, t + 1, cursor', remaining')
  {
    CursorStep(ga, x, t, cursor);
    MissingSnoc(LeftWalk(ga, x), t, g);
    cursor' := StepLeft(cursor, |ga|);
    remaining' := remaining;
    if ga[cursor'] !in g {
      remaining' := remaining + [ga[cursor']];
    }
  }

  /** When the fill walk stops, it has collected every missing town. */
  lemma CollectDone(ga: seq<int>, x: nat, g: seq<int>, t: nat, cursor: nat, remaining: seq<int>)
    requires Distinct(ga) && Distinct(g) && Elems(g) <= Elems(ga)
    requires Collecting(ga, x, g, t, cursor, remaining) && |g| + |remaining| == |ga|
    ensures remaining == Missing(LeftWalk(ga, x), g)
    ensures Distinct(remaining) && Elems(remaining) == Elems(ga) - Elems(g)
  {
    MissingOfWalk(ga, x, g);
    MissingPrefixFull(LeftWalk(ga, x), t, g);
  }

  lemma MissingOfWalkLength(ga: seq<int>, x0: nat, g: seq<int>)
    requires Distinct(ga) && x0 < |ga|
    requires Distinct(g) && Elems(g) <= Elems(ga)
    ensures |Missing(LeftWalk(ga, x0), g)| == |ga| - |g|
  {
    MissingOfWalk(ga, x0, g);
  }

  /** The state of the fill walk after t steps: the cursor is t steps left
      of x, the towns collected are the missing ones among the first t towns
      of the walk, and after a full round all of them. */
  ghost predicate Collecting(ga: seq<int>, x: nat, g: seq<int>, t: nat, cursor: nat, remaining: seq<int>) {
    x < |ga| && t <= |ga| &&
    cursor == (if t <= x then x - t else x - t + |ga|) &&
    remaining == Missing(LeftWalk(ga, x)[..t], g) &&
    (t == |ga| ==> |g| + |remaining| == |ga|)
  }

  /** The cursor of the leftward collection, stepped once more, reaches the
      next town of the walk. */
  lemma CursorStep(ga: seq<int>, x: nat, t: nat, cursor: nat)
    requires x < |ga| && t < |ga|
    requires cursor == if t <= x then x - t else x - t + |ga|
    ensures cursor < |ga|
    ensures StepLeft(cursor, |ga|) == (if t + 1 <= x then x - (t + 1) else x - (t + 1) + |ga|)
    ensures |LeftWalk(ga, x)| == |ga| && LeftWalk(ga, x)[t] == ga[StepLeft(cursor, |ga|)]
  {
    LeftWalkAt(ga, x, t);
  }

  /** A prefix of the walk that already misses as many towns as the whole
      walk misses them all. */
  lemma MissingPrefixFull(w: seq<int>, t: nat, g: seq<int>)
    requires t <= |w| && |Missing(w[..t], g)| == |Missing(w, g)|
    ensures Missing(w[..t], g) == Missing(w, g)
  {
    assert w == w[..t] + w[t..];
    MissingConcat(w[..t], w[t..], g);
  }

  /** One more element of the walk adds it to the missing ones unless the
      chain has it. */
  lemma MissingSnoc(s: seq<int>, t: nat, g: seq<int>)
    requires t < |s|
    ensures Missing(s[..t + 1], g) == Missing(s[..t], g) + (if s[t] in g then [] else [s[t]])
    ensures t + 1 == |s| ==> s[..t + 1] == s
  {
    assert s[..t + 1][..t] == s[..t];
  }

  /** Problem.crossover. The pivot is the position in ga of the town drawn by
      choice(ga.chromosome); `draws` drives the shuffle of the remaining towns.
      The child is a permutation of ga whose first towns form the chain grown
      from the pivot, leftward along ga and rightward along gb, until the next
      town on each side is already in the chain; the towns the chain misses
      follow in shuffled order (popped from the end of the shuffled list). */
  method Crossover(ga: seq<int>, gb: seq<int>, pivot: nat, draws: seq<nat>) returns (child: seq<int>)
    requires Distinct(ga) && multiset(gb) == multiset(ga)
    requires pivot < |ga|
    requires ShuffleDraws(draws, |ga|)
    ensures IsOffspring(ga, gb, pivot, child)
  {
    var g, x := GrowChain(ga, gb, pivot);
    child := g;
    if |g| < |ga| {
      var remaining := CollectRemaining(ga, g, x);
      var shuffled := Shuffle(remaining, draws);
      child := PopAll(g, shuffled);
      ChainAndRest(ga, g, remaining, shuffled);
    } else {
      WholeChain(ga, g);
    }
    assert child[..|g|] == g;
  }

  /** The chain followed by the missing towns in any order is a permutation of ga. */
  lemma ChainAndRest(ga: seq<int>, g: seq<int>, remaining: seq<int>, shuffled: seq<int>)
    requires Distinct(ga) && Distinct(g) && Distinct(remaining)
    requires Elems(g) <= Elems(ga) && Elems(remaining) == Elems(ga) - Elems(g)
    requires multiset(shuffled) == multiset(remaining)
    ensures |g + Rev(shuffled)| == |ga| && multiset(g + Rev(shuffled)) == multiset(ga)
  {
    CompletePermutation(ga, g, remaining);
    RevMultiset(shuffled);
    assert multiset(g + Rev(shuffled)) == multiset(g) + multiset(shuffled);
    assert |g + Rev(shuffled)| == |multiset(g + Rev(shuffled))|;
  }

  /** A chain that is as long as ga already is a permutation of it. */
  lemma WholeChain(ga: seq<int>, g: seq<int>)
    requires Distinct(ga) && Distinct(g) && Elems(g) <= Elems(ga) && |g| >= |ga|
    ensures |g| == |ga| && multiset(g) == multiset(ga)
  {
    DistinctCard(ga);
    DistinctInSet(g, Elems(ga));
    SameElemsPermutation(g, ga);
  }

  /** `while len(remaining) > 0: g.append(remaining.pop())`: the remaining
      towns are appended last first. */
  method PopAll(g: seq<int>, remaining: seq<int>) returns (r: seq<int>)
    ensures r == g + Rev(remaining)
  {
    r := g;
    var rest := remaining;
    while |rest| > 0
      invariant rest == remaining[..|rest|]
      invariant r == g + Rev(remaining[|rest|..])
    {
      RevSnocEnd(remaining, |rest| - 1);
      r := r + [rest[|rest| - 1]];
      rest := rest[..|rest| - 1];
    }
  }

  lemma RevSnocEnd<T>(s: seq<T>, i: nat)
    requires i < |s|
    ensures Rev(s[i..]) == Rev(s[i + 1..]) + [s[i]]
  {
    assert s[i..] == [s[i]] + s[i + 1..];
  }
}
