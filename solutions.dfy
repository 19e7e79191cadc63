/** A candidate tour (class Solution of fa.py): a chromosome of town ids and
    the cached length of the closed tour it describes. */
module Solutions {
  import opened Seqs
  import opened Towns
  import opened Choices

  /** Every id of the chromosome can index the table. */
  predicate OnTable(d: Matrix, c: seq<int>) {
    IsSquare(d, |d|) && forall k :: 0 <= k < |c| ==> 0 <= c[k] < |d|
  }

  predicate NonNegative(d: Matrix)
    requires IsSquare(d, |d|)
  {
    forall i, j :: 0 <= i < |d| && 0 <= j < |d| ==> d[i][j] >= 0.0
  }

  /** Length of the open path c[0] -> c[1] -> ... -> c[|c| - 1]. */
  function PathLength(d: Matrix, c: seq<int>): real
    requires OnTable(d, c)
  {
    if |c| <= 1 then 0.0 else PathLength(d, c[..|c| - 1]) + d[c[|c| - 2]][c[|c| - 1]]
  }

  /** Length of the closed tour: the path plus the edge joining the first
      and the last town. */
  function TourLength(d: Matrix, c: seq<int>): real
    requires OnTable(d, c) && |c| >= 1
  {
    PathLength(d, c) + d[c[0]][c[|c| - 1]]
  }

  /** The path length also decomposes from the front. */
  lemma {:induction false} PathLengthCons(d: Matrix, x: int, c: seq<int>)
    requires OnTable(d, c) && 0 <= x < |d| && |c| >= 1
    ensures OnTable(d, [x] + c)
    ensures PathLength(d, [x] + c) == d[x][c[0]] + PathLength(d, c)
  {
    var xc := [x] + c;
    if |c| > 1 {
      assert xc[..|xc| - 1] == [x] + c[..|c| - 1];
      PathLengthCons(d, x, c[..|c| - 1]);
    } else {
      assert xc[..|xc| - 1] == [x];
    }
  }

  /** On a symmetric table a path is as long backwards as forwards. */
  lemma {:induction false} PathLengthReversed(d: Matrix, c: seq<int>)
    requires OnTable(d, c) && Symmetric(d)
    ensures OnTable(d, Rev(c)) && PathLength(d, Rev(c)) == PathLength(d, c)
  {
    if |c| > 1 {
      var p := c[..|c| - 1];
      var x := c[|c| - 1];
      assert Rev(c) == [x] + Rev(p);
      PathLengthReversed(d, p);
      PathLengthCons(d, x, Rev(p));
    } else {
      assert Rev(c) == c;
    }
  }

  /** On a symmetric table the closed tour is as long in either direction. */
  lemma TourLengthReversed(d: Matrix, c: seq<int>)
    requires OnTable(d, c) && Symmetric(d) && |c| >= 1
    ensures OnTable(d, Rev(c)) && TourLength(d, Rev(c)) == TourLength(d, c)
  {
    PathLengthReversed(d, c);
  }

  /** A table of non-negative distances gives non-negative tour lengths. */
  lemma {:induction false} PathLengthNonNegative(d: Matrix, c: seq<int>)
    requires OnTable(d, c) && NonNegative(d)
    ensures PathLength(d, c) >= 0.0
  {
    if |c| > 1 {
      PathLengthNonNegative(d, c[..|c| - 1]);
    }
  }

  lemma TourLengthNonNegative(d: Matrix, c: seq<int>)
    requires OnTable(d, c) && NonNegative(d) && |c| >= 1
    ensures TourLength(d, c) >= 0.0
  {
    PathLengthNonNegative(d, c);
  }

  /** The chromosome with the inclusive segment [i..j] reversed. */
  function ReverseSegment<T>(s: seq<T>, i: nat, j: nat): (r: seq<T>)
    requires i <= j < |s|
    ensures |r| == |s|
    ensures forall k :: 0 <= k < |s| ==> r[k] == if i <= k <= j then s[i + j - k] else s[k]
  {
    s[..i] + Rev(s[i..j + 1]) + s[j + 1..]
  }

  /** The reversal loop between g1 and g2: outside [g1, g2] the target is
      reached, inside it the original is untouched. */
  ghost predicate HalfReversed<T>(c: seq<T>, orig: seq<T>, target: seq<T>, g1: int, g2: int) {
    |c| == |orig| == |target| &&
    forall k :: 0 <= k < |orig| ==> c[k] == if g1 <= k <= g2 then orig[k] else target[k]
  }

  /** One swap of the reversal loop moves both ends onto the target. */
  lemma SwapStep<T>(c: seq<T>, orig: seq<T>, target: seq<T>, lo: nat, hi: nat, g1: nat, g2: nat)
    requires lo <= g1 < g2 <= hi < |orig| && g1 + g2 == lo + hi
    requires target == ReverseSegment(orig, lo, hi)
    requires HalfReversed(c, orig, target, g1, g2)
    ensures HalfReversed(c[g1 := c[g2]][g2 := c[g1]], orig, target, g1 + 1, g2 - 1)
  {
  }

  /** Once the ends meet the loop has reached the target. */
  lemma HalfReversedDone<T>(c: seq<T>, orig: seq<T>, target: seq<T>, lo: nat, hi: nat, g1: int, g2: int)
    requires lo <= hi < |orig| && target == ReverseSegment(orig, lo, hi)
    requires HalfReversed(c, orig, target, g1, g2) && g1 >= g2 && g1 + g2 == lo + hi
    ensures c == target
  {
  }

  /** Reversing a segment only reorders the ids. */
  lemma ReverseSegmentMultiset<T>(s: seq<T>, i: nat, j: nat)
    requires i <= j < |s|
    ensures multiset(ReverseSegment(s, i, j)) == multiset(s)
  {
    assert s == s[..i] + s[i..j + 1] + s[j + 1..];
    RevMultiset(s[i..j + 1]);
  }

  /** Reversing the same segment twice restores the chromosome. */
  lemma ReverseSegmentInvolution<T>(s: seq<T>, i: nat, j: nat)
    requires i <= j < |s|
    ensures ReverseSegment(ReverseSegment(s, i, j), i, j) == s
  {
    var r := ReverseSegment(ReverseSegment(s, i, j), i, j);
    assert forall k :: 0 <= k < |s| ==> r[k] == s[k];
  }

  /** The example of Solution.mutate's documentation: positions 5 and 8 of
      [0, ..., 11]. */
  lemma MutateExample()
    ensures ReverseSegment([0, 1, 2, 3, 4, 5, 6, 7, 8, 9, 10, 11], 5, 8)
         == [0, 1, 2, 3, 4, 8, 7, 6, 5, 9, 10, 11]
  {
  }

  /** `after` is `before` mutated with the first gene gene1 and the first
      redraw gene2 that differs from it: the segment between them reversed. */
  ghost predicate MutatedBy(before: seq<int>, after: seq<int>, gene1: nat, redraws: seq<nat>) {
    exists gene2: nat :: gene1 < |before| && gene2 < |before| &&
      FirstRedraw(redraws, gene1, gene2) &&
      after == ReverseSegment(before, Min(gene1, gene2), Max(gene1, gene2))
  }

  /** A mutation only reorders the ids. */
  lemma MutatedByMultiset(before: seq<int>, after: seq<int>, gene1: nat, redraws: seq<nat>)
    requires MutatedBy(before, after, gene1, redraws)
    ensures multiset(after) == multiset(before)
  {
    var gene2: nat :| gene1 < |before| && gene2 < |before| &&
      FirstRedraw(redraws, gene1, gene2) &&
      after == ReverseSegment(before, Min(gene1, gene2), Max(gene1, gene2));
    ReverseSegmentMultiset(before, Min(gene1, gene2), Max(gene1, gene2));
  }

  class Solution {
    var chromosome: seq<int>
    var distance: real

    /** Solution(chromosome): the length cache starts at 0. */
    constructor (chromosome: seq<int>)
      ensures this.chromosome == chromosome && distance == 0.0
    {
      this.chromosome := chromosome;
      distance := 0.0;
    }

    /** deepcopy of a solution. */
    constructor Copy(other: Solution)
      ensures chromosome == other.chromosome && distance == other.distance
    {
      chromosome := other.chromosome;
      distance := other.distance;
    }

    /** Solution.compute_distance: resets the cache, adds every consecutive
        edge, then the edge from the first to the last town. */
    method ComputeDistance(d: Matrix)
      requires OnTable(d, chromosome) && |chromosome| >= 1
      modifies this`distance
      ensures distance == TourLength(d, chromosome)
    {
      var n := |chromosome|;
      distance := 0.0;
      var s := 0;
      while s < n - 1
        invariant 0 <= s <= n - 1
        invariant distance == PathLength(d, chromosome[..s + 1])
      {
        assert chromosome[..s + 2][..s + 1] == chromosome[..s + 1];
        distance := distance + TownDistance(d, chromosome[s], chromosome[s + 1]);
        s := s + 1;
      }
      assert chromosome[..n] == chromosome;
      distance := distance + TownDistance(d, chromosome[0], chromosome[n - 1]);
    }

    /** Solution.mutate: gene1 and the first redraw gene2 that differs from
        it are put in order, then the segment between them is reversed by
        swapping from both ends inward. */
    method Mutate(gene1: nat, redraws: seq<nat>)
      requires gene1 < |chromosome|
      requires forall k :: 0 <= k < |redraws| ==> redraws[k] < |chromosome|
      requires exists k :: 0 <= k < |redraws| && redraws[k] != gene1
      modifies this`chromosome
      ensures MutatedBy(old(chromosome), chromosome, gene1, redraws)
    {
      var gene2 := DrawDifferent(gene1, redraws);
      assert gene2 < |chromosome|;
      var g1, g2 := gene1, gene2;
      if g1 > g2 {
        g1, g2 := g2, g1;
      }
      ghost var lo, hi := g1, g2;
      ghost var orig := chromosome;
      ghost var target := ReverseSegment(orig, lo, hi);
      while g1 < g2
        invariant lo <= g1 && g2 <= hi && g1 + g2 == lo + hi
        invariant |chromosome| == |orig|
        invariant HalfReversed(chromosome, orig, target, g1, g2)
      {
        SwapStep(chromosome, orig, target, lo, hi, g1, g2);
        chromosome := chromosome[g1 := chromosome[g2]][g2 := chromosome[g1]];
        g1 := g1 + 1;
        g2 := g2 - 1;
      }
      HalfReversedDone(chromosome, orig, target, lo, hi, g1, g2);
      assert FirstRedraw(redraws, gene1, gene2);
    }
  }
}
