/** The genetic algorithm of fa.py (class Problem): a population of
    solutions evolved by tournament selection, neighbour-chaining crossover
    and segment-reversal mutation, with the best solution ever seen kept
    aside as the incumbent. */
module Problems {
  import opened Seqs
  import opened Numerics
  import opened Towns
  import opened Choices
  import opened Solutions
  import opened Crossovers

  /** The class constants of Problem. */
  const FACTOR: nat := 1
  const SIZE_TOURNAMENT_BATTLE: nat := 10
  const MUTATION_RATE: real := 0.3
  const CROSSOVER_FRACTION: real := 0.8

  /** int(round((1 - CROSSOVER_FRACTION) * NB_POPULATION)): the number of
      tournament rounds. */
  function SelectionCount(nb: nat): nat {
    Round((1.0 - CROSSOVER_FRACTION) * nb as real)
  }

  /** int(round(NB_POPULATION * CROSSOVER_FRACTION) / 2): the number of
      parent pairs, each giving two children. */
  function CrossoverPairs(nb: nat): nat {
    Round(CROSSOVER_FRACTION * nb as real) / 2
  }

  /** int(round(MUTATION_RATE * NB_POPULATION)): the number of mutated solutions. */
  function MutationCount(nb: nat): nat {
    Round(MUTATION_RATE * nb as real)
  }

  /** For the population sizes where the tournament runs, survivors and
      children together never exceed the population size, so only the small
      populations that skip the tournament are cut back afterwards. */
  lemma GenerationFits(nb: nat)
    ensures SelectionCount(nb) + 2 * CrossoverPairs(nb) <= nb
  {
    var p := SelectionCount(nb);
    var q := Round(CROSSOVER_FRACTION * nb as real);
    TenthsRound(2, nb);
    TenthsRound(8, nb);
    // 10 * p == 2 * nb + 5 would make an even number odd.
    assert 10 * p != 2 * nb + 5 by {
      assert (10 * p) % 2 == 0 && (2 * nb + 5) % 2 == 1;
    }
    assert p + q <= nb;
  }

  /** round(a / 10 * nb) to within half, in tenths: 10 * r lies in
      [a * nb - 5, a * nb + 5]. */
  lemma TenthsRound(a: nat, nb: nat)
    requires a == 2 || a == 8
    ensures var x := if a == 2 then (1.0 - CROSSOVER_FRACTION) * nb as real else CROSSOVER_FRACTION * nb as real;
      a * nb - 5 <= 10 * Round(x) <= a * nb + 5
  {
    var x := if a == 2 then (1.0 - CROSSOVER_FRACTION) * nb as real else CROSSOVER_FRACTION * nb as real;
    assert x == (a as real) * (nb as real) / 10.0;
    var r := Round(x);
    assert (10 * r) as real == 10.0 * r as real;
    assert ((a * nb) as real) == (a as real) * (nb as real);
  }

  /** A chromosome visiting each of the n towns once. */
  predicate IsTour(c: seq<int>, n: nat) {
    multiset(c) == multiset(Iota(n))
  }

  lemma TourFacts(c: seq<int>, n: nat)
    requires IsTour(c, n)
    ensures |c| == n && Distinct(c)
    ensures forall k :: 0 <= k < |c| ==> 0 <= c[k] < n
  {
    assert |c| == |multiset(c)| == |Iota(n)|;
    PermutationDistinct(Iota(n), c);
    forall k | 0 <= k < |c| ensures 0 <= c[k] < n {
      assert c[k] in multiset(c);
      assert c[k] in Iota(n);
    }
  }

  /** No solution object occurs twice in the population. */
  predicate DistinctRefs(s: seq<Solution>) {
    Distinct(s)
  }

  /** The length of a solution as Python holds it; the absent incumbent
      (the sentinel Solution([]) of distance float('inf')) is null. */
  function LengthOf(s: Solution?): (r: Length)
    reads s
    ensures r.Infinity? <==> s == null
  {
    if s == null then Infinity else Finite(s.distance)
  }

  /** The test of compute_all_distances: `d < best and not equal_double(d, best)`. */
  predicate Improves(d: real, best: Length) {
    best.Infinity? || (d < best.value && !EqualDouble(d, best.value))
  }

  /** A strict improvement lies at least epsilon below. */
  lemma ImprovesBelow(d: real, best: Length)
    requires Improves(d, best) && best.Finite?
    ensures d <= best.value - EPSILON
  {
  }

  /** Improvement is transitive. */
  lemma ImprovesTransitive(d1: real, d2: real, best: Length)
    requires Improves(d2, Finite(d1)) && Improves(d1, best)
    ensures Improves(d2, best)
  {
  }

  /** A length that did not improve on best does not improve on anything
      that improved on best either: the incumbent only moves down. */
  lemma NotImprovesStays(d: real, d1: real, best: Length)
    requires !Improves(d, best) && Improves(d1, best)
    ensures !Improves(d, Finite(d1))
  {
  }

  /** A solution with the length it had when the list was ranked: what
      list.sort and the tournament look at (the key) and what they move
      around (the object). */
  datatype Ranked = Ranked(key: real, sol: Solution)

  /** The population seen through its cached lengths. */
  function Ranking(s: seq<Solution>): (r: seq<Ranked>)
    reads s
    ensures |r| == |s| && forall k :: 0 <= k < |s| ==> r[k] == Ranked(s[k].distance, s[k])
  {
    seq(|s|, k reads s requires 0 <= k < |s| => Ranked(s[k].distance, s[k]))
  }

  /** The objects of a ranked list, in order. */
  function Sols(r: seq<Ranked>): (s: seq<Solution>)
    ensures |s| == |r| && forall k :: 0 <= k < |r| ==> s[k] == r[k].sol
  {
    seq(|r|, k requires 0 <= k < |r| => r[k].sol)
  }

  /** Reordering a ranked list whose objects are distinct keeps them
      distinct, and brings in no new entry. */
  lemma PermutedSols(r: seq<Ranked>, s: seq<Ranked>)
    requires Distinct(Sols(r)) && multiset(s) == multiset(r)
    ensures Distinct(Sols(s))
    ensures forall k :: 0 <= k < |s| ==> s[k] in r
  {
    assert Distinct(r) by {
      forall i, j | 0 <= i < j < |r| ensures r[i] != r[j] {
        assert Sols(r)[i] != Sols(r)[j];
      }
    }
    PermutationDistinct(r, s);
    forall k | 0 <= k < |s| ensures s[k] in r {
      assert s[k] in multiset(s);
    }
    forall i, j | 0 <= i < j < |s| ensures Sols(s)[i] != Sols(s)[j] {
      var i', j' := IndexOf(r, s[i]), IndexOf(r, s[j]);
      assert i' != j';
      assert Sols(r)[i'] != Sols(r)[j'];
    }
  }

  lemma SolsRemoveAt(r: seq<Ranked>, w: nat)
    requires w < |r|
    ensures Sols(RemoveAt(r, w)) == RemoveAt(Sols(r), w)
  {
  }

  lemma SolsSnoc(r: seq<Ranked>, x: Ranked)
    ensures Sols(r + [x]) == Sols(r) + [x.sol]
  {
  }

  /** Entries taken from r have their objects among the objects of r. */
  lemma SolsMembers(r: seq<Ranked>, u: seq<Ranked>)
    requires forall k :: 0 <= k < |u| ==> u[k] in r
    ensures forall k :: 0 <= k < |u| ==> Sols(u)[k] in Sols(r)
  {
    forall k | 0 <= k < |u| ensures Sols(u)[k] in Sols(r) {
      var m := IndexOf(r, u[k]);
      assert Sols(r)[m] == u[k].sol;
    }
  }

  lemma SolsSplit(a: seq<Ranked>, b: seq<Ranked>)
    ensures Sols(a + b) == Sols(a) + Sols(b)
  {
  }

  /** Ascending by key. */
  predicate Sorted(s: seq<Ranked>) {
    forall i, j :: 0 <= i < j < |s| ==> s[i].key <= s[j].key
  }

  /** Inserts x before the first element whose key is not below x's. */
  function Insert(x: Ranked, s: seq<Ranked>): (r: seq<Ranked>)
    requires Sorted(s)
    ensures |r| == |s| + 1 && multiset(r) == multiset(s) + multiset{x}
    ensures Sorted(r)
    ensures r[0] == x || (|s| > 0 && r[0] == s[0])
  {
    if s == [] || x.key <= s[0].key then
      SortedCons(x, s);
      [x] + s
    else
      assert s == [s[0]] + s[1..];
      var t := Insert(x, s[1..]);
      SortedCons(s[0], t);
      [s[0]] + t
  }

  /** A key no larger than the head's extends a sorted list at the front. */
  lemma SortedCons(a: Ranked, t: seq<Ranked>)
    requires Sorted(t) && (|t| > 0 ==> a.key <= t[0].key)
    ensures Sorted([a] + t)
  {
    var u := [a] + t;
    forall i, j | 0 <= i < j < |u| ensures u[i].key <= u[j].key {
      if i == 0 && j > 1 {
        assert u[1] == t[0] && u[j] == t[j - 1];
      }
    }
  }

  /** list.sort(key=lambda p: p.distance): a sort by key in which equal keys
      keep their order. */
  function Sort(s: seq<Ranked>): (r: seq<Ranked>)
    ensures |r| == |s| && multiset(r) == multiset(s)
    ensures Sorted(r)
  {
    if s == [] then []
    else
      assert s == [s[0]] + s[1..];
      Insert(s[0], Sort(s[1..]))
  }

  /** The elements of s whose key is k, in the order of s. */
  function WithKey(s: seq<Ranked>, k: real): seq<Ranked> {
    if s == [] then [] else (if s[0].key == k then [s[0]] else []) + WithKey(s[1..], k)
  }

  /** Inserting x adds it in front of the elements with its own key and
      leaves those of every other key as they were. */
  lemma {:induction false} InsertWithKey(x: Ranked, t: seq<Ranked>, k: real)
    requires Sorted(t)
    ensures WithKey(Insert(x, t), k) == (if x.key == k then [x] else []) + WithKey(t, k)
  {
    if t == [] || x.key <= t[0].key {
      assert Insert(x, t) == [x] + t;
      WithKeyCons(x, t, k);
    } else {
      InsertWithKey(x, t[1..], k);
      InsertBehind(x, t);
      ConsWithKeyShift(t[0], Insert(x, t[1..]), t[1..], x, k);
      assert t == [t[0]] + t[1..];
    }
  }

  /** A head whose key is below x's commutes with x in the per-key view. */
  lemma ConsWithKeyShift(h: Ranked, u: seq<Ranked>, rest: seq<Ranked>, x: Ranked, k: real)
    requires h.key < x.key
    requires WithKey(u, k) == (if x.key == k then [x] else []) + WithKey(rest, k)
    ensures WithKey([h] + u, k) == (if x.key == k then [x] else []) + WithKey([h] + rest, k)
  {
    WithKeyCons(h, u, k);
    WithKeyCons(h, rest, k);
  }

  /** Insert puts x behind a head with a smaller key. */
  lemma InsertBehind(x: Ranked, t: seq<Ranked>)
    requires Sorted(t) && t != [] && x.key > t[0].key
    ensures Insert(x, t) == [t[0]] + Insert(x, t[1..])
  {
  }

  lemma WithKeyCons(a: Ranked, t: seq<Ranked>, k: real)
    ensures WithKey([a] + t, k) == (if a.key == k then [a] else []) + WithKey(t, k)
  {
    assert ([a] + t)[1..] == t;
  }

  /** The sort is stable: for every key, the solutions with that key come out
      in the order they went in. */
  lemma {:induction false} SortStable(s: seq<Ranked>, k: real)
    ensures WithKey(Sort(s), k) == WithKey(s, k)
  {
    if s != [] {
      SortStable(s[1..], k);
      InsertWithKey(s[0], Sort(s[1..]), k);
    }
  }

  /** Cutting the sorted list after m keeps the m shortest: every kept
      solution is at most as long as every dropped one. */
  lemma TruncateKeepsShortest(s: seq<Ranked>, m: nat)
    requires m <= |s|
    ensures var r := Sort(s);
      forall i, j :: 0 <= i < m <= j < |s| ==> r[i].key <= r[j].key
  {
  }

  /** The keys of the sampled positions of the pool. */
  function SampleKeys(pool: seq<Ranked>, idx: seq<nat>): (r: seq<real>)
    requires forall j :: 0 <= j < |idx| ==> idx[j] < |pool|
    ensures |r| == |idx| && forall j :: 0 <= j < |idx| ==> r[j] == pool[idx[j]].key
  {
    seq(|idx|, j requires 0 <= j < |idx| && forall j :: 0 <= j < |idx| ==> idx[j] < |pool| => pool[idx[j]].key)
  }

  /** Position of the first minimum: what `[0]` of a stable sort by key picks. */
  function FirstMin(ds: seq<real>): (r: nat)
    requires |ds| > 0
    ensures r < |ds| && forall k :: 0 <= k < |ds| ==> ds[r] <= ds[k]
    ensures forall k :: 0 <= k < r ==> ds[k] > ds[r]
  {
    if |ds| == 1 then 0
    else
      var m := FirstMin(ds[..|ds| - 1]);
      if ds[|ds| - 1] < ds[m] then |ds| - 1 else m
  }

  /** The draw of tournament round i over a pool that started with `size`
      solutions: SIZE_TOURNAMENT_BATTLE distinct positions of the size - i
      solutions left. */
  predicate RoundSample(idx: seq<nat>, size: nat, i: nat) {
    i + SIZE_TOURNAMENT_BATTLE <= size && IsSample(idx, size - i, SIZE_TOURNAMENT_BATTLE)
  }

  /** Draws for all the tournament rounds. */
  predicate ValidSamples(samples: seq<seq<nat>>, size: nat) {
    forall i :: 0 <= i < |samples| ==> RoundSample(samples[i], size, i)
  }

  lemma ValidSamplesTail(samples: seq<seq<nat>>, size: nat)
    requires ValidSamples(samples, size) && |samples| > 0
    ensures size >= 1 && ValidSamples(samples[1..], size - 1)
  {
    assert RoundSample(samples[0], size, 0);
    var tail := samples[1..];
    forall i | 0 <= i < |tail| ensures RoundSample(tail[i], size - 1, i) {
      assert tail[i] == samples[i + 1];
      assert RoundSample(samples[i + 1], size, i + 1);
    }
  }

  /** Position in the pool of the winner of one round: the first sampled
      solution of least length. */
  function TournamentWinner(pool: seq<Ranked>, idx: seq<nat>): (w: nat)
    requires |idx| > 0 && forall j :: 0 <= j < |idx| ==> idx[j] < |pool|
    ensures w < |pool|
  {
    idx[FirstMin(SampleKeys(pool, idx))]
  }

  /** selection_process when the tournament runs: the survivors in the order
      they won, and the pool that is left. */
  function Tournament(pool: seq<Ranked>, samples: seq<seq<nat>>): (r: (seq<Ranked>, seq<Ranked>))
    requires ValidSamples(samples, |pool|)
    ensures |r.0| == |samples| && |r.1| == |pool| - |samples|
    decreases |samples|
  {
    if samples == [] then ([], pool)
    else
      ValidSamplesTail(samples, |pool|);
      var w := TournamentWinner(pool, samples[0]);
      var t := Tournament(RemoveAt(pool, w), samples[1..]);
      ([pool[w]] + t.0, t.1)
  }

  /** The pool at the start of round i. */
  function RoundPool(pool: seq<Ranked>, samples: seq<seq<nat>>, i: nat): (r: seq<Ranked>)
    requires ValidSamples(samples, |pool|) && i <= |samples|
    ensures |r| == |pool| - i
    decreases i
  {
    if i == 0 then pool
    else
      ValidSamplesTail(samples, |pool|);
      RoundPool(RemoveAt(pool, TournamentWinner(pool, samples[0])), samples[1..], i - 1)
  }

  /** The first round of the tournament and the rounds after it: with `won`
      the survivors of the rounds before, the winner joins them and the
      rest of the rounds run on the pool without it. */
  lemma TournamentStep(won: seq<Ranked>, pool: seq<Ranked>, samples: seq<seq<nat>>)
    requires ValidSamples(samples, |pool|) && |samples| > 0
    ensures var w := TournamentWinner(pool, samples[0]); var next := RemoveAt(pool, w);
      ValidSamples(samples[1..], |next|) &&
      (won + [pool[w]]) + Tournament(next, samples[1..]).0 == won + Tournament(pool, samples).0 &&
      Tournament(next, samples[1..]).1 == Tournament(pool, samples).1
  {
    ValidSamplesTail(samples, |pool|);
    var w := TournamentWinner(pool, samples[0]);
    var t := Tournament(RemoveAt(pool, w), samples[1..]).0;
    assert (won + [pool[w]]) + t == won + ([pool[w]] + t);
  }

  /** The tournament keeps |samples| survivors and leaves the rest: together
      they are the pool rearranged. */
  lemma {:induction false} TournamentSplits(pool: seq<Ranked>, samples: seq<seq<nat>>)
    requires ValidSamples(samples, |pool|)
    ensures var t := Tournament(pool, samples); multiset(t.0 + t.1) == multiset(pool)
    decreases |samples|
  {
    if samples != [] {
      ValidSamplesTail(samples, |pool|);
      var w := TournamentWinner(pool, samples[0]);
      var next := RemoveAt(pool, w);
      TournamentSplits(next, samples[1..]);
      RemoveAtMultiset(pool, w);
      var t := Tournament(next, samples[1..]);
      assert Tournament(pool, samples) == ([pool[w]] + t.0, t.1);
      assert multiset(t.0 + t.1) == multiset(t.0) + multiset(t.1);
      assert multiset([pool[w]] + t.0 + t.1) == multiset([pool[w]]) + multiset(t.0) + multiset(t.1);
    }
  }

  /** Survivor i is the sampled solution of least length in round i, and
      the first such in the order of the sample. */
  lemma {:induction false} TournamentWins(pool: seq<Ranked>, samples: seq<seq<nat>>, i: nat)
    requires ValidSamples(samples, |pool|) && i < |samples|
    ensures RoundSample(samples[i], |pool|, i)
    ensures var t := Tournament(pool, samples); var p := RoundPool(pool, samples, i);
      exists m :: 0 <= m < |samples[i]| && t.0[i] == p[samples[i][m]] &&
        (forall j :: 0 <= j < |samples[i]| ==> t.0[i].key <= p[samples[i][j]].key) &&
        (forall j :: 0 <= j < m ==> p[samples[i][j]].key > t.0[i].key)
    decreases i
  {
    assert RoundSample(samples[i], |pool|, i);
    TournamentSplits(pool, samples);
    ValidSamplesTail(samples, |pool|);
    var w := TournamentWinner(pool, samples[0]);
    var next := RemoveAt(pool, w);
    if i == 0 {
      var m := FirstMin(SampleKeys(pool, samples[0]));
      assert Tournament(pool, samples).0[0] == pool[samples[0][m]];
    } else {
      TournamentWins(next, samples[1..], i - 1);
      assert samples[1..][i - 1] == samples[i];
      TournamentSplits(next, samples[1..]);
      assert Tournament(pool, samples).0[i] == Tournament(next, samples[1..]).0[i - 1];
    }
  }

  /** The survivors come from the pool, and distinct objects stay distinct. */
  lemma TournamentDistinct(pool: seq<Ranked>, samples: seq<seq<nat>>)
    requires ValidSamples(samples, |pool|) && Distinct(Sols(pool))
    ensures var t := Tournament(pool, samples);
      Distinct(Sols(t.0 + t.1)) && forall k :: 0 <= k < |t.0 + t.1| ==> (t.0 + t.1)[k] in pool
  {
    TournamentSplits(pool, samples);
    var t := Tournament(pool, samples);
    PermutedSols(pool, t.0 + t.1);
  }

  /** Length of a tour of all n towns. */
  function Evaluate(d: Matrix, c: seq<int>): real
    requires IsSquare(d, |d|) && |d| >= 1 && IsTour(c, |d|)
  {
    TourFacts(c, |d|);
    TourLength(d, c)
  }

  /** The town of line k of the input: id k, then name and coordinates. */
  function MakeTown(cities: seq<(string, real, real)>, k: nat): Town
    requires k < |cities|
  {
    Town(k, cities[k].0, cities[k].1, cities[k].2)
  }

  /** cities_dict as Problem.__init__ fills it: id k maps to the town of line k. */
  ghost predicate IsCityDict(dict: map<int, Town>, cities: seq<(string, real, real)>) {
    (forall k :: k in dict <==> 0 <= k < |cities|) &&
    forall k :: 0 <= k < |cities| ==> dict[k] == MakeTown(cities, k)
  }

  /** The random choices of one pair of parents in crossover_process: the
      index of solution1, the redraws for solution2, and for each of the two
      calls of crossover the position of the chosen town and the shuffle draws. */
  datatype PairDraw = PairDraw(first: nat, redraws: seq<nat>,
                               pivot1: nat, shuffle1: seq<nat>,
                               pivot2: nat, shuffle2: seq<nat>)

  predicate ValidPairDraw(d: PairDraw, size: nat, n: nat) {
    d.first < size &&
    (forall k :: 0 <= k < |d.redraws| ==> d.redraws[k] < size) &&
    (exists k :: 0 <= k < |d.redraws| && d.redraws[k] != d.first) &&
    d.pivot1 < n && d.pivot2 < n && ShuffleDraws(d.shuffle1, n) && ShuffleDraws(d.shuffle2, n)
  }

  /** The random choices of one call of Solution.mutate. */
  datatype MutationDraw = MutationDraw(gene1: nat, redraws: seq<nat>)

  predicate ValidMutationDraw(d: MutationDraw, n: nat) {
    d.gene1 < n &&
    (forall k :: 0 <= k < |d.redraws| ==> d.redraws[k] < n) &&
    (exists k :: 0 <= k < |d.redraws| && d.redraws[k] != d.gene1)
  }

  /** All the random choices of one call of generate. */
  datatype GenerationDraws = GenerationDraws(samples: seq<seq<nat>>, pairs: seq<PairDraw>,
                                             mutated: seq<nat>, mutations: seq<MutationDraw>)

  /** Choices that generate can consume for a population of `size` solutions
      of n towns when NB_POPULATION is nb. */
  predicate ValidGenerationDraws(d: GenerationDraws, size: nat, n: nat, nb: nat) {
    var kept := if size > SIZE_TOURNAMENT_BATTLE then |d.samples| else size;
    (size > SIZE_TOURNAMENT_BATTLE ==> |d.samples| == SelectionCount(nb) && ValidSamples(d.samples, size)) &&
    |d.pairs| == CrossoverPairs(nb) &&
    (forall k :: 0 <= k < |d.pairs| ==> ValidPairDraw(d.pairs[k], kept, n)) &&
    IsSample(d.mutated, kept + 2 * |d.pairs|, MutationCount(nb)) &&
    |d.mutations| == |d.mutated| &&
    forall k :: 0 <= k < |d.mutations| ==> ValidMutationDraw(d.mutations[k], n)
  }

  /** What selection_process returns for the population p. */
  function Selected(p: seq<Solution>, samples: seq<seq<nat>>): (r: seq<Solution>)
    reads p
    requires |p| > SIZE_TOURNAMENT_BATTLE ==> ValidSamples(samples, |p|)
  {
    if |p| <= SIZE_TOURNAMENT_BATTLE then p else Sols(Tournament(Ranking(p), samples).0)
  }

  /** The population generate keeps from the candidates p: all of them when
      they are at most nb, otherwise the first nb after a stable sort by
      length. */
  function Truncated(p: seq<Solution>, nb: nat): (r: seq<Solution>)
    reads p
  {
    if |p| > nb then Sols(Sort(Ranking(p)))[..nb] else p
  }

  /** Every entry the cut after nb drops is at least as long as every
      entry it keeps. */
  lemma SortedCut(ranked: seq<Ranked>, sorted: seq<Ranked>, nb: nat)
    requires nb <= |ranked| && sorted == Sort(ranked)
    ensures forall k :: 0 <= k < |sorted| ==> sorted[k] in ranked
    ensures forall x, i :: x in ranked && x !in sorted[..nb] && 0 <= i < nb ==> sorted[i].key <= x.key
  {
    forall k | 0 <= k < |sorted| ensures sorted[k] in ranked {
      assert sorted[k] in multiset(sorted);
    }
    forall x, i | x in ranked && x !in sorted[..nb] && 0 <= i < nb ensures sorted[i].key <= x.key {
      assert x in multiset(ranked);
      var j := IndexOf(sorted, x);
      TruncateKeepsShortest(ranked, nb);
    }
  }

  /** The truncation keeps min(|p|, nb) distinct solutions of p. */
  lemma TruncatedMembers(p: seq<Solution>, nb: nat)
    requires Distinct(p)
    ensures var r := Truncated(p, nb);
      |r| == (if |p| > nb then nb else |p|) && Distinct(r) &&
      forall k :: 0 <= k < |r| ==> r[k] in p
  {
    if |p| > nb {
      var ranked := Ranking(p);
      var sorted := Sort(ranked);
      assert Sols(ranked) == p;
      PermutedSols(ranked, sorted);
      var all := Sols(sorted);
      forall k | 0 <= k < nb ensures all[k] in p {
        var m := IndexOf(ranked, sorted[k]);
        assert all[k] == p[m];
      }
      assert forall i, j :: 0 <= i < j < nb ==> all[..nb][i] == all[i] && all[..nb][j] == all[j];
    }
  }

  /** The solutions a cut keeps are the first entries of the sorted ranking,
      each with its own length as key. */
  lemma TruncatedKeys(p: seq<Solution>, nb: nat)
    requires |p| > nb
    ensures var r, sorted := Truncated(p, nb), Sort(Ranking(p));
      |r| == nb && forall k :: 0 <= k < nb ==> r[k] == sorted[k].sol && r[k].distance == sorted[k].key
  {
    var ranked := Ranking(p);
    var sorted := Sort(ranked);
    var r := Truncated(p, nb);
    forall k | 0 <= k < nb ensures r[k] == sorted[k].sol && r[k].distance == sorted[k].key {
      assert sorted[k] in multiset(sorted);
      var m := IndexOf(ranked, sorted[k]);
      assert ranked[m] == Ranked(p[m].distance, p[m]);
    }
  }

  /** A cut population is in ascending order of length, and none of the
      solutions the cut drops is shorter than any it keeps. */
  lemma TruncatedShortest(p: seq<Solution>, nb: nat)
    requires |p| > nb
    ensures var r := Truncated(p, nb);
      (forall i, j :: 0 <= i < j < |r| ==> r[i].distance <= r[j].distance) &&
      forall i, s :: 0 <= i < |r| && s in p && s !in r ==> r[i].distance <= s.distance
  {
    var ranked := Ranking(p);
    var sorted := Sort(ranked);
    var r := Truncated(p, nb);
    TruncatedKeys(p, nb);
    assert Sorted(sorted);
    forall i, s | 0 <= i < |r| && s in p && s !in r ensures r[i].distance <= s.distance {
      var m := IndexOf(p, s);
      var x := ranked[m];
      assert x == Ranked(s.distance, s);
      forall j | 0 <= j < nb ensures sorted[..nb][j] != x {
        assert r[j] == sorted[j].sol;
      }
      SortedCut(ranked, sorted, nb);
    }
  }

  /** The chromosomes of a list of solutions, in order. */
  function Chromosomes(s: seq<Solution>): (r: seq<seq<int>>)
    reads s
    ensures |r| == |s| && forall k :: 0 <= k < |s| ==> r[k] == s[k].chromosome
  {
    seq(|s|, k reads s requires 0 <= k < |s| => s[k].chromosome)
  }

  /** The cached lengths of a list of solutions, in order. */
  function Distances(s: seq<Solution>): (r: seq<real>)
    reads s
    ensures |r| == |s| && forall k :: 0 <= k < |s| ==> r[k] == s[k].distance
  {
    seq(|s|, k reads s requires 0 <= k < |s| => s[k].distance)
  }

  /** c1 and c2 are the two children crossover_process makes from the
      parents chosen by d: solution1 = parents[d.first], solution2 the first
      redraw that is another solution, then crossover(solution1, solution2)
      and crossover(solution2, solution1). */
  ghost predicate Bred(parents: seq<seq<int>>, d: PairDraw, c1: seq<int>, c2: seq<int>) {
    exists second: nat :: d.first < |parents| && second < |parents| &&
      FirstRedraw(d.redraws, d.first, second) &&
      IsOffspring(parents[d.first], parents[second], d.pivot1, c1) &&
      IsOffspring(parents[second], parents[d.first], d.pivot2, c2)
  }

  /** kids[2k] and kids[2k + 1] are the children of pair k. */
  ghost predicate AllBred(parents: seq<seq<int>>, pairs: seq<PairDraw>, kids: seq<seq<int>>) {
    |kids| == 2 * |pairs| &&
    forall k :: 0 <= k < |pairs| ==> Bred(parents, pairs[k], kids[2 * k], kids[2 * k + 1])
  }

  /** The crossover loop after i pairs: the children so far are tours, bred
      by the first i pairs. */
  ghost predicate Breeding(parents: seq<seq<int>>, pairs: seq<PairDraw>, i: nat, kids: seq<seq<int>>, n: nat) {
    i <= |pairs| &&
    (forall k :: 0 <= k < |kids| ==> IsTour(kids[k], n)) &&
    AllBred(parents, pairs[..i], kids)
  }

  /** The children of the next pair move the loop on by one. */
  lemma BreedingStep(parents: seq<seq<int>>, pairs: seq<PairDraw>, i: nat, kids: seq<seq<int>>, n: nat,
                     c1: seq<int>, c2: seq<int>)
    requires Breeding(parents, pairs, i, kids, n) && i < |pairs|
    requires IsTour(c1, n) && IsTour(c2, n) && Bred(parents, pairs[i], c1, c2)
    ensures Breeding(parents, pairs, i + 1, kids + [c1, c2], n)
  {
    AllBredSnoc(parents, pairs[..i], kids, pairs[i], c1, c2);
    PrefixSnoc(pairs, i);
  }

  lemma AllBredSnoc(parents: seq<seq<int>>, pairs: seq<PairDraw>, kids: seq<seq<int>>,
                    d: PairDraw, c1: seq<int>, c2: seq<int>)
    requires AllBred(parents, pairs, kids) && Bred(parents, d, c1, c2)
    ensures AllBred(parents, pairs + [d], kids + [c1, c2])
  {
    var p, q := pairs + [d], kids + [c1, c2];
    forall k | 0 <= k < |p| ensures Bred(parents, p[k], q[2 * k], q[2 * k + 1]) {
      if k < |pairs| {
        assert p[k] == pairs[k] && q[2 * k] == kids[2 * k] && q[2 * k + 1] == kids[2 * k + 1];
      } else {
        assert p[k] == d && q[2 * k] == c1 && q[2 * k + 1] == c2;
      }
    }
  }

  /** Children of two tours are tours. */
  lemma OffspringTour(ga: seq<int>, gb: seq<int>, pivot: nat, child: seq<int>, n: nat)
    requires IsTour(ga, n) && IsOffspring(ga, gb, pivot, child)
    ensures IsTour(child, n) && IsTour(gb, n)
  {
  }

  /** `after` is `before` with the chromosome at position mutated[j]
      mutated by draw j, for every j, and every other chromosome unchanged. */
  ghost predicate MutationsApplied(before: seq<seq<int>>, after: seq<seq<int>>,
                                   mutated: seq<nat>, mutations: seq<MutationDraw>) {
    |after| == |before| && |mutations| == |mutated| &&
    (forall j :: 0 <= j < |mutated| ==>
      mutated[j] < |before| &&
      MutatedBy(before[mutated[j]], after[mutated[j]], mutations[j].gene1, mutations[j].redraws)) &&
    forall k :: 0 <= k < |before| && k !in mutated ==> after[k] == before[k]
  }

  /** The mutation loop after i of the draws: every chromosome is still a
      tour, and the first i draws have been applied. */
  ghost predicate Mutating(before: seq<seq<int>>, now: seq<seq<int>>, mutated: seq<nat>,
                           mutations: seq<MutationDraw>, i: nat, n: nat) {
    i <= |mutated| == |mutations| && Distinct(mutated) &&
    (forall j :: 0 <= j < |mutated| ==> mutated[j] < |before|) &&
    (forall j :: 0 <= j < |mutations| ==> ValidMutationDraw(mutations[j], n)) &&
    (forall k :: 0 <= k < |now| ==> IsTour(now[k], n)) &&
    MutationsApplied(before, now, mutated[..i], mutations[..i])
  }

  /** The next draw mutates a tour of the list. */
  lemma MutatingNext(before: seq<seq<int>>, now: seq<seq<int>>, mutated: seq<nat>,
                     mutations: seq<MutationDraw>, i: nat, n: nat)
    requires Mutating(before, now, mutated, mutations, i, n) && i < |mutated|
    ensures mutated[i] < |now| && IsTour(now[mutated[i]], n) && ValidMutationDraw(mutations[i], n)
  {
  }

  /** Applying the next draw moves the loop on by one. */
  lemma MutatingStep(before: seq<seq<int>>, now: seq<seq<int>>, mutated: seq<nat>,
                     mutations: seq<MutationDraw>, i: nat, n: nat, c: seq<int>)
    requires Mutating(before, now, mutated, mutations, i, n) && i < |mutated|
    requires mutated[i] < |now| && IsTour(c, n)
    requires MutatedBy(now[mutated[i]], c, mutations[i].gene1, mutations[i].redraws)
    ensures Mutating(before, now[mutated[i] := c], mutated, mutations, i + 1, n)
  {
    assert mutated[i] !in mutated[..i];
    MutationsAppliedSnoc(before, now, mutated[..i], mutations[..i], mutated[i], mutations[i], c);
    PrefixSnoc(mutated, i);
    PrefixSnoc(mutations, i);
  }

  /** Once every draw is used, all of them have been applied. */
  lemma MutatingDone(before: seq<seq<int>>, now: seq<seq<int>>, mutated: seq<nat>,
                     mutations: seq<MutationDraw>, n: nat)
    requires Mutating(before, now, mutated, mutations, |mutated|, n)
    ensures MutationsApplied(before, now, mutated, mutations)
  {
    assert mutated[..|mutated|] == mutated && mutations[..|mutations|] == mutations;
  }

  lemma MutationsAppliedSnoc(before: seq<seq<int>>, now: seq<seq<int>>, mutated: seq<nat>,
                             mutations: seq<MutationDraw>, x: nat, m: MutationDraw, c: seq<int>)
    requires MutationsApplied(before, now, mutated, mutations)
    requires x < |now| && x !in mutated && MutatedBy(now[x], c, m.gene1, m.redraws)
    ensures MutationsApplied(before, now[x := c], mutated + [x], mutations + [m])
  {
    var after, ms, ds := now[x := c], mutated + [x], mutations + [m];
    forall j | 0 <= j < |ms|
      ensures ms[j] < |before| && MutatedBy(before[ms[j]], after[ms[j]], ds[j].gene1, ds[j].redraws)
    {
      if j < |mutated| {
        assert ms[j] == mutated[j] && ds[j] == mutations[j] && ms[j] != x;
      }
    }
  }

  /** b is a with the element at x replaced by v. */
  lemma UpdatedAt<T>(a: seq<T>, b: seq<T>, x: nat, v: T)
    requires x < |a| == |b| && b[x] == v
    requires forall k :: 0 <= k < |a| && k != x ==> b[k] == a[k]
    ensures b == a[x := v]
  {
  }

  class Problem {
    /** NB_POPULATION = len(cities) * FACTOR. */
    const nbPopulation: nat
    const citiesDict: map<int, Town>
    /** The distance table of the towns, indexed by id. */
    const table: Matrix
    var keys: seq<int>
    /** The incumbent; null stands for Solution([]) with distance float('inf'). */
    var best: Solution?
    var population: seq<Solution>

    /** What every operation keeps: n towns with a symmetric table, the keys
        and every chromosome a tour of them, no solution object twice, and an
        incumbent that is an evaluated tour outside the population. */
    ghost predicate Valid()
      reads this, population, best
    {
      var n := |table|;
      IsSquare(table, n) && Symmetric(table) &&
      nbPopulation == n * FACTOR &&
      IsTour(keys, n) &&
      (n == 0 ==> population == []) &&
      Distinct(population) &&
      (forall i :: 0 <= i < |population| ==> IsTour(population[i].chromosome, n)) &&
      (best != null ==>
        best !in population && n >= 1 && IsTour(best.chromosome, n) &&
        best.distance == Evaluate(table, best.chromosome))
    }

    /** Every cached length is the length of its tour. */
    ghost predicate Evaluated()
      reads this, population, best
      requires Valid()
    {
      forall i :: 0 <= i < |population| ==>
        population[i].distance == Evaluate(table, population[i].chromosome)
    }

    /** Every solution of s is a tour, its cached length is its length, and
        it does not improve on the incumbent. */
    static ghost predicate Measured(s: seq<Solution>, table: Matrix, best: Solution?)
      reads s, best
    {
      forall k :: 0 <= k < |s| ==>
        IsSquare(table, |table|) && |table| >= 1 && IsTour(s[k].chromosome, |table|) &&
        s[k].distance == Evaluate(table, s[k].chromosome) && !Improves(s[k].distance, LengthOf(best))
    }

    /** No solution of s that r lacks is shorter than one r holds. */
    static ghost predicate KeptShortest(r: seq<Solution>, s: seq<Solution>)
      reads r, s
    {
      forall i, x :: 0 <= i < |r| && x in s && x !in r ==> r[i].distance <= x.distance
    }

    /** An incumbent other than `previous` has the tour and length of a
        solution of s. */
    static ghost predicate CopiedFrom(best: Solution?, s: seq<Solution>, previous: Solution?)
      reads s, best
    {
      best != previous ==>
        best != null &&
        exists k :: 0 <= k < |s| && best.chromosome == s[k].chromosome && best.distance == s[k].distance
    }

    /** The state generate leaves from the candidates it evaluated: the
        invariants hold, the population is the candidates cut to
        NB_POPULATION, every candidate is evaluated and none improves on the
        incumbent, the cut dropped no candidate shorter than one it kept, and
        an incumbent other than `previous` copies a candidate. */
    ghost predicate Settled(candidates: seq<Solution>, previous: Solution?)
      reads this, population, candidates, best
    {
      Valid() && Evaluated() && Incumbent() &&
      population == Truncated(candidates, nbPopulation) && |population| <= nbPopulation &&
      Measured(candidates, table, best) && KeptShortest(population, candidates) && CopiedFrom(best, candidates, previous)
    }

    /** No solution of the population improves on the incumbent. */
    ghost predicate Incumbent()
      reads this, population, best
    {
      forall i :: 0 <= i < |population| ==> !Improves(population[i].distance, LengthOf(best))
    }

    /** Problem.__init__: the towns get the ids 0 .. n - 1 in input order, the
        keys are range(0, n), there is no population and no incumbent yet, and
        the table is filled by compute_all_possible_distance. `metric` stands
        for hypot of the coordinate differences. */
    constructor (cities: seq<(string, real, real)>, metric: (Town, Town) -> real)
      ensures Valid() && population == [] && best == null
      ensures |table| == |cities| && nbPopulation == |cities| * FACTOR && keys == Iota(|cities|)
      ensures IsCityDict(citiesDict, cities)
      ensures forall i, j :: 0 <= i < |cities| && 0 <= j < |cities| ==>
        table[i][j] == metric(MakeTown(cities, Min(i, j)), MakeTown(cities, Max(i, j)))
    {
      var n := |cities|;
      var ks := Iota(n);
      var dict: map<int, Town> := map[];
      var towns: seq<Town> := [];
      var c := 0;
      while c < n
        invariant 0 <= c <= n
        invariant forall k :: k in dict <==> 0 <= k < c
        invariant forall k :: 0 <= k < c ==> dict[k] == MakeTown(cities, k)
        invariant |towns| == c && forall k :: 0 <= k < c ==> towns[k] == MakeTown(cities, k)
      {
        var town := Town(ks[c], cities[c].0, cities[c].1, cities[c].2);
        dict := dict[town.id := town];
        towns := towns + [town];
        c := c + 1;
      }
      var d := ComputeAllPossibleDistance(towns, metric);
      forall i, j | 0 <= i < n && 0 <= j < n
        ensures d[i][j] == metric(MakeTown(cities, Min(i, j)), MakeTown(cities, Max(i, j)))
      {
        assert PairFilled(d, towns, metric, Min(i, j), Max(i, j));
      }
      nbPopulation := n * FACTOR;
      citiesDict := dict;
      table := d;
      keys := ks;
      best := null;
      population := [];
    }
 
    /** Problem.create_population: NB_POPULATION times, shuffle the keys in
        place and append a solution holding a copy of them. */
    method CreatePopulation(shuffles: seq<seq<nat>>)
      requires Valid()
      requires |shuffles| == nbPopulation && forall i :: 0 <= i < |shuffles| ==> ShuffleDraws(shuffles[i], |table|)
      modifies this`keys, this`population
      ensures Valid()
      ensures |population| == |old(population)| + nbPopulation
      ensures population[..|old(population)|] == old(population)
      ensures forall k :: |old(population)| <= k < |population| ==>
        fresh(population[k]) && population[k].distance == 0.0
    {
      var i := 0;
      while i < nbPopulation
        invariant 0 <= i <= nbPopulation
        invariant Valid()
        invariant |population| == |old(population)| + i
        invariant population[..|old(population)|] == old(population)
        invariant forall k :: |old(population)| <= k < |population| ==>
          fresh(population[k]) && population[k].distance == 0.0
      {
        TourFacts(keys, |table|);
        var shuffled := Shuffle(keys, shuffles[i]);
        keys := shuffled;
        var s := new Solution(keys);
        assert s !in population;
        population := population + [s];
        i := i + 1;
      }
    }

    /** Problem.compute_all_distances: every cached length is recomputed, in
        population order, and a deep copy of a solution becomes the incumbent
        when it is shorter by more than the tolerance. */
    method ComputeAllDistances()
      requires Valid()
      modifies this`best, population
      ensures Valid() && Evaluated() && Incumbent()
      ensures forall i :: 0 <= i < |population| ==> population[i].chromosome == old(population[i].chromosome)
      ensures best == old(best) || (fresh(best) && Improves(best.distance, old(LengthOf(best))))
      ensures Measured(population, table, best) && CopiedFrom(best, population, old(best))
      ensures AtMost(LengthOf(best), old(LengthOf(best)))
    {
      var i := 0;
      ghost var source := 0;
      while i < |population|
        invariant 0 <= i <= |population|
        invariant Valid()
        invariant forall k :: 0 <= k < |population| ==> population[k].chromosome == old(population[k].chromosome)
        invariant forall k :: 0 <= k < i ==>
          population[k].distance == Evaluate(table, population[k].chromosome) &&
          !Improves(population[k].distance, LengthOf(best))
        invariant best == old(best) || (fresh(best) && Improves(best.distance, old(LengthOf(best))))
        invariant best != old(best) ==>
          source < i && best.chromosome == population[source].chromosome && best.distance == population[source].distance
      {
        ghost var previous := best;
        Consider(i, population[i]);
        if best != previous {
          source := i;
          if previous != old(best) {
            ImprovesTransitive(previous.distance, best.distance, old(LengthOf(best)));
          }
        }
        i := i + 1;
      }
    }

    /** One round of the loop of compute_all_distances, for population[i]. */
    method Consider(i: nat, p: Solution)
      requires Valid() && i < |population| && p == population[i]
      requires forall k :: 0 <= k < i ==>
        population[k].distance == Evaluate(table, population[k].chromosome) &&
        !Improves(population[k].distance, LengthOf(best))
      modifies p`distance, this`best
      ensures Valid()
      ensures forall k :: 0 <= k <= i ==>
        population[k].distance == Evaluate(table, population[k].chromosome) &&
        !Improves(population[k].distance, LengthOf(best))
      ensures best == old(best) ||
        (fresh(best) && Improves(best.distance, old(LengthOf(best))) &&
         best.chromosome == population[i].chromosome && best.distance == population[i].distance)
    {
      TourFacts(p.chromosome, |table|);
      p.ComputeDistance(table);
      if best == null || (p.distance < best.distance && !EqualDouble(p.distance, best.distance)) {
        ghost var before := LengthOf(best);
        forall k | 0 <= k < i ensures !Improves(population[k].distance, Finite(p.distance)) {
          NotImprovesStays(population[k].distance, p.distance, before);
        }
        best := new Solution.Copy(p);
      }
    }

    /** Problem.initialize: the incumbent becomes the float('inf') sentinel,
        then the population is created and evaluated. */
    method Initialize(shuffles: seq<seq<nat>>)
      requires Valid()
      requires |shuffles| == nbPopulation && forall i :: 0 <= i < |shuffles| ==> ShuffleDraws(shuffles[i], |table|)
      modifies this, population
      ensures Valid() && Evaluated() && Incumbent()
      ensures |population| == |old(population)| + nbPopulation
      ensures population != [] ==> best != null
      ensures best != null ==> fresh(best)
      ensures CopiedFrom(best, population, null)
    {
      best := null;
      CreatePopulation(shuffles);
      ComputeAllDistances();
      if population != [] {
        assert !Improves(population[0].distance, LengthOf(best));
      }
    }
 
    /** Problem.selection_process. A population no larger than the
        tournament is returned as it is; otherwise each round samples
        SIZE_TOURNAMENT_BATTLE solutions, takes the first of least length,
        removes it from the population and appends it to the survivors. */
    method SelectionProcess(samples: seq<seq<nat>>) returns (survivors: seq<Solution>)
      requires Valid()
      requires |population| > SIZE_TOURNAMENT_BATTLE ==>
        |samples| == SelectionCount(nbPopulation) && ValidSamples(samples, |population|)
      modifies this`population
      ensures Valid()
      ensures |old(population)| <= SIZE_TOURNAMENT_BATTLE ==>
        survivors == old(population) && population == old(population)
      ensures |old(population)| > SIZE_TOURNAMENT_BATTLE ==>
        var t := Tournament(Ranking(old(population)), samples);
        survivors == Sols(t.0) && population == Sols(t.1)
      ensures Distinct(survivors) && forall k :: 0 <= k < |survivors| ==> survivors[k] in old(population)
      ensures forall k :: 0 <= k < |survivors| ==> IsTour(survivors[k].chromosome, |table|) && survivors[k] != best
    {
      if SIZE_TOURNAMENT_BATTLE >= |population| {
        return population;
      }
      ghost var whole := population;
      survivors := RunTournament(samples);
      forall k | 0 <= k < |survivors| ensures IsTour(survivors[k].chromosome, |table|) && survivors[k] != best {
        var m := IndexOf(whole, survivors[k]);
      }
    }

    /** The rounds of the tournament. */
    method RunTournament(samples: seq<seq<nat>>) returns (survivors: seq<Solution>)
      requires Distinct(population) && ValidSamples(samples, |population|)
      modifies this`population
      ensures var t := old(Tournament(Ranking(population), samples));
        survivors == Sols(t.0) && population == Sols(t.1)
      ensures Distinct(population) && Distinct(survivors)
      ensures forall k :: 0 <= k < |survivors| ==> survivors[k] in old(population)
      ensures forall k :: 0 <= k < |population| ==> population[k] in old(population)
    {
      TournamentMembers(population, samples);
      var pool := Ranking(population);
      ghost var whole := Tournament(pool, samples);
      var rest := population;
      var won: seq<Ranked> := [];
      survivors := [];
      var i := 0;
      while i < |samples|
        invariant 0 <= i <= |samples|
        invariant rest == Sols(pool) && survivors == Sols(won)
        invariant ValidSamples(samples[i..], |pool|)
        invariant whole.0 == won + Tournament(pool, samples[i..]).0
        invariant whole.1 == Tournament(pool, samples[i..]).1
        invariant Distinct(rest)
      {
        assert samples[i..][1..] == samples[i + 1..];
        pool, won, rest, survivors := TournamentRound(pool, won, rest, survivors, samples[i..]);
        i := i + 1;
      }
      assert samples[i..] == [];
      assert survivors == Sols(whole.0) && rest == Sols(whole.1);
      population := rest;
    }

    /** One round: the winner leaves the rest and joins the survivors. */
    static method TournamentRound(pool: seq<Ranked>, won: seq<Ranked>, rest: seq<Solution>, survivors: seq<Solution>,
                        samples: seq<seq<nat>>)
      returns (pool': seq<Ranked>, won': seq<Ranked>, rest': seq<Solution>, survivors': seq<Solution>)
      requires rest == Sols(pool) && survivors == Sols(won) && Distinct(rest)
      requires ValidSamples(samples, |pool|) && |samples| > 0
      ensures rest' == Sols(pool') && survivors' == Sols(won') && Distinct(rest')
      ensures ValidSamples(samples[1..], |pool'|)
      ensures won' + Tournament(pool', samples[1..]).0 == won + Tournament(pool, samples).0
      ensures Tournament(pool', samples[1..]).1 == Tournament(pool, samples).1
    {
      var w := TournamentWinner(pool, samples[0]);
      var winner := rest[w];
      TournamentStep(won, pool, samples);
      RemoveAtDistinct(rest, w);
      SolsRemoveAt(pool, w);
      rest' := RemoveAt(rest, IndexOf(rest, winner));
      survivors' := survivors + [winner];
      SolsSnoc(won, pool[w]);
      won' := won + [pool[w]];
      pool' := RemoveAt(pool, w);
    }

    /** The survivors and the rest are distinct objects of the pool. */
    static lemma TournamentMembers(p: seq<Solution>, samples: seq<seq<nat>>)
      requires Distinct(p) && ValidSamples(samples, |p|)
      ensures var t := Tournament(Ranking(p), samples);
        Distinct(Sols(t.0)) && Distinct(Sols(t.1)) &&
        (forall k :: 0 <= k < |t.0| ==> Sols(t.0)[k] in p) &&
        (forall k :: 0 <= k < |t.1| ==> Sols(t.1)[k] in p)
    {
      var r := Ranking(p);
      assert Sols(r) == p;
      TournamentDistinct(r, samples);
      var t := Tournament(r, samples);
      SolsMembers(r, t.0 + t.1);
      SolsSplit(t.0, t.1);
      DistinctConcatParts(Sols(t.0), Sols(t.1));
    }

    /** Problem.crossover_process: CrossoverPairs(NB_POPULATION) times,
        choose two different survivors and append the child of each order
        of the pair. */
    method CrossoverProcess(survivors: seq<Solution>, pairs: seq<PairDraw>) returns (offspring: seq<Solution>)
      requires forall k :: 0 <= k < |survivors| ==> IsTour(survivors[k].chromosome, |table|)
      requires forall k :: 0 <= k < |pairs| ==> ValidPairDraw(pairs[k], |survivors|, |table|)
      ensures |offspring| == 2 * |pairs| && Distinct(offspring)
      ensures forall k :: 0 <= k < |offspring| ==>
        fresh(offspring[k]) && offspring[k].distance == 0.0 && IsTour(offspring[k].chromosome, |table|)
      ensures AllBred(Chromosomes(survivors), pairs, Chromosomes(offspring))
    {
      var parents := Chromosomes(survivors);
      var kids := BreedAll(parents, pairs, |table|);
      offspring := NewSolutions(kids);
      assert Chromosomes(offspring) == kids;
    }

    /** The chromosomes of all the children, two per pair. */
    static method BreedAll(parents: seq<seq<int>>, pairs: seq<PairDraw>, n: nat) returns (kids: seq<seq<int>>)
      requires forall k :: 0 <= k < |parents| ==> IsTour(parents[k], n)
      requires forall k :: 0 <= k < |pairs| ==> ValidPairDraw(pairs[k], |parents|, n)
      ensures AllBred(parents, pairs, kids)
      ensures forall k :: 0 <= k < |kids| ==> IsTour(kids[k], n)
    {
      kids := [];
      var i := 0;
      while i < |pairs|
        invariant 0 <= i <= |pairs|
        invariant Breeding(parents, pairs, i, kids, n)
      {
        var g1, g2 := BreedPair(parents, pairs[i], n);
        BreedingStep(parents, pairs, i, kids, n, g1, g2);
        kids := kids + [g1, g2];
        i := i + 1;
      }
      assert pairs[..i] == pairs;
    }

    /** One pair of crossover_process: solution1, then the first redraw that
        is another solution, and the two crossovers. */
    static method BreedPair(parents: seq<seq<int>>, d: PairDraw, n: nat) returns (g1: seq<int>, g2: seq<int>)
      requires forall k :: 0 <= k < |parents| ==> IsTour(parents[k], n)
      requires ValidPairDraw(d, |parents|, n)
      ensures IsTour(g1, n) && IsTour(g2, n)
      ensures Bred(parents, d, g1, g2)
    {
      var solution1 := parents[d.first];
      var second := DrawDifferent(d.first, d.redraws);
      assert second < |parents|;
      var solution2 := parents[second];
      TourFacts(solution1, n);
      TourFacts(solution2, n);
      g1 := Crossover(solution1, solution2, d.pivot1, d.shuffle1);
      g2 := Crossover(solution2, solution1, d.pivot2, d.shuffle2);
      OffspringTour(solution1, solution2, d.pivot1, g1, n);
      OffspringTour(solution2, solution1, d.pivot2, g2, n);
    }

    /** Solution(g) for each chromosome g, in order. */
    static method NewSolutions(kids: seq<seq<int>>) returns (sols: seq<Solution>)
      ensures |sols| == |kids| && Distinct(sols)
      ensures forall k :: 0 <= k < |sols| ==>
        fresh(sols[k]) && sols[k].distance == 0.0 && sols[k].chromosome == kids[k]
    {
      sols := [];
      var i := 0;
      while i < |kids|
        invariant 0 <= i <= |kids|
        invariant |sols| == i && Distinct(sols)
        invariant forall k :: 0 <= k < i ==>
          fresh(sols[k]) && sols[k].distance == 0.0 && sols[k].chromosome == kids[k]
      {
        var s := new Solution(kids[i]);
        assert s !in sols;
        sols := sols + [s];
        i := i + 1;
      }
    }

    /** Problem.mutation_process: the solutions at the sampled positions of
        the new population mutate, one draw each; nothing else changes. */
    method MutationProcess(pop: seq<Solution>, mutated: seq<nat>, mutations: seq<MutationDraw>)
      requires Distinct(pop) && IsSample(mutated, |pop|, MutationCount(nbPopulation))
      requires forall k :: 0 <= k < |pop| ==> IsTour(pop[k].chromosome, |table|)
      requires |mutations| == |mutated|
      requires forall j :: 0 <= j < |mutations| ==> ValidMutationDraw(mutations[j], |table|)
      modifies pop
      ensures MutationsApplied(old(Chromosomes(pop)), Chromosomes(pop), mutated, mutations)
      ensures Distances(pop) == old(Distances(pop))
      ensures forall k :: 0 <= k < |pop| ==> IsTour(pop[k].chromosome, |table|)
    {
      ghost var before, lengths := Chromosomes(pop), Distances(pop);
      ghost var now := before;
      var i := 0;
      while i < |mutated|
        invariant 0 <= i
        invariant Chromosomes(pop) == now && Distances(pop) == lengths
        invariant Mutating(before, now, mutated, mutations, i, |table|)
      {
        var x := mutated[i];
        MutatingNext(before, now, mutated, mutations, i, |table|);
        var c := MutateAt(pop, x, mutations[i], |table|);
        MutatingStep(before, now, mutated, mutations, i, |table|, c);
        now := now[x := c];
        i := i + 1;
      }
      MutatingDone(before, now, mutated, mutations, |table|);
      forall k | 0 <= k < |pop| ensures IsTour(pop[k].chromosome, |table|) {
        assert pop[k].chromosome == now[k];
      }
    }

    /** One solution of mutation_process mutates; returns its new chromosome. */
    static method MutateAt(pop: seq<Solution>, x: nat, m: MutationDraw, n: nat) returns (c: seq<int>)
      requires Distinct(pop) && x < |pop| && IsTour(pop[x].chromosome, n) && ValidMutationDraw(m, n)
      modifies pop[x]
      ensures Chromosomes(pop) == old(Chromosomes(pop))[x := c]
      ensures MutatedBy(old(pop[x].chromosome), c, m.gene1, m.redraws) && IsTour(c, n)
      ensures Distances(pop) == old(Distances(pop))
    {
      ghost var before, lengths := Chromosomes(pop), Distances(pop);
      c := MutateOne(pop[x], m, n);
      ghost var after, lengths' := Chromosomes(pop), Distances(pop);
      forall k | 0 <= k < |pop| && k != x
        ensures after[k] == before[k] && lengths'[k] == lengths[k]
      {
        assert pop[k] != pop[x];
      }
      UpdatedAt(before, after, x, c);
      UpdatedAt(lengths, lengths', x, lengths[x]);
    }

    /** Solution.mutate on one tour: it stays a tour and keeps its length cache. */
    static method MutateOne(s: Solution, m: MutationDraw, n: nat) returns (c: seq<int>)
      requires IsTour(s.chromosome, n) && ValidMutationDraw(m, n)
      modifies s
      ensures s.chromosome == c && s.distance == old(s.distance)
      ensures MutatedBy(old(s.chromosome), c, m.gene1, m.redraws) && IsTour(c, n)
    {
      TourFacts(s.chromosome, n);
      s.Mutate(m.gene1, m.redraws);
      MutatedByMultiset(old(s.chromosome), s.chromosome, m.gene1, m.redraws);
      c := s.chromosome;
    }

    /** Problem.generate: selection, crossover of the survivors, mutation of
        the new population, which then replaces the population and is
        evaluated (possibly improving the incumbent); when it outnumbers
        NB_POPULATION only the shortest NB_POPULATION solutions are kept.
        Returns the incumbent. `candidates` is the new population before the
        cut and `bred` the chromosomes of its solutions before mutation. */
    method Generate(draws: GenerationDraws) returns (r: Solution?, ghost candidates: seq<Solution>, ghost bred: seq<seq<int>>)
      requires Valid()
      requires ValidGenerationDraws(draws, |population|, |table|, nbPopulation)
      modifies this, population
      ensures Settled(candidates, old(best)) && r == best
      ensures Reproduced(candidates, bred, old(Selected(population, draws.samples)),
                         old(Chromosomes(Selected(population, draws.samples))), draws.pairs)
      ensures forall k :: |candidates| - 2 * |draws.pairs| <= k < |candidates| ==> fresh(candidates[k])
      ensures MutationsApplied(bred, Chromosomes(candidates), draws.mutated, draws.mutations)
      ensures best == old(best) || (fresh(best) && Improves(best.distance, old(LengthOf(best))))
      ensures AtMost(LengthOf(best), old(LengthOf(best)))
    {
      ghost var kept;
      kept, bred := NextPopulation(draws);
      assert kept == |population| - 2 * |draws.pairs|;
      assert Reproduced(population, bred, old(Selected(population, draws.samples)),
                        old(Chromosomes(Selected(population, draws.samples))), draws.pairs);
      candidates := Settle();
      r := best;
    }

    /** The end of generate: the new population is evaluated, updating the
        incumbent, and cut to NB_POPULATION. */
    method Settle() returns (ghost candidates: seq<Solution>)
      requires Valid()
      modifies this`best, this`population, population
      ensures Settled(candidates, old(best))
      ensures candidates == old(population) && Chromosomes(candidates) == old(Chromosomes(population))
      ensures best == old(best) || (fresh(best) && Improves(best.distance, old(LengthOf(best))))
      ensures AtMost(LengthOf(best), old(LengthOf(best)))
    {
      candidates := population;
      ghost var chromosomes := Chromosomes(candidates);
      ComputeAllDistances();
      assert Chromosomes(candidates) == chromosomes;
      Truncate();
    }

    /** The new population of generate before it is evaluated: the
        survivors of the selection, then the children of crossover_process,
        then mutation_process on the lot. */
    method NextPopulation(draws: GenerationDraws) returns (ghost kept: nat, ghost bred: seq<seq<int>>)
      requires Valid()
      requires ValidGenerationDraws(draws, |population|, |table|, nbPopulation)
      modifies this`population, population
      ensures Valid()
      ensures |population| == kept + 2 * |draws.pairs| == |bred|
      ensures population[..kept] == old(Selected(population, draws.samples))
      ensures bred[..kept] == old(Chromosomes(Selected(population, draws.samples)))
      ensures AllBred(bred[..kept], draws.pairs, bred[kept..])
      ensures forall k :: kept <= k < |population| ==> fresh(population[k])
      ensures forall k :: 0 <= k < kept ==> population[k] in old(population)
      ensures MutationsApplied(bred, Chromosomes(population), draws.mutated, draws.mutations)
    {
      var survivors := Select(draws);
      kept := |survivors|;
      bred := Reproduce(survivors, draws.pairs, draws.mutated, draws.mutations);
    }

    /** The candidates of generate and their chromosomes before mutation,
        `bred`: first the survivors `selected` with their chromosomes
        `chosen`, then two children per pair, bred from those chromosomes. */
    static ghost predicate Reproduced(candidates: seq<Solution>, bred: seq<seq<int>>, selected: seq<Solution>,
                                      chosen: seq<seq<int>>, pairs: seq<PairDraw>)
    {
      var kept := |candidates| - 2 * |pairs|;
      |candidates| >= 2 * |pairs| && |bred| == |candidates| &&
      candidates[..kept] == selected && bred[..kept] == chosen &&
      AllBred(bred[..kept], pairs, bred[kept..])
    }

    /** What crossover_process and mutation_process need of the survivors
        and of the draws: distinct tours other than the incumbent, pairs of
        positions among the survivors, and mutation draws over the survivors
        and their children. */
    ghost predicate Breedable(survivors: seq<Solution>, pairs: seq<PairDraw>, mutated: seq<nat>, mutations: seq<MutationDraw>)
      reads this, survivors
    {
      Distinct(survivors) &&
      (forall k :: 0 <= k < |survivors| ==> IsTour(survivors[k].chromosome, |table|) && survivors[k] != best) &&
      (|table| == 0 ==> survivors == [] && pairs == []) &&
      (forall k :: 0 <= k < |pairs| ==> ValidPairDraw(pairs[k], |survivors|, |table|)) &&
      IsSample(mutated, |survivors| + 2 * |pairs|, MutationCount(nbPopulation)) && |mutations| == |mutated| &&
      forall j :: 0 <= j < |mutations| ==> ValidMutationDraw(mutations[j], |table|)
    }

    /** selection_process at the start of generate, with what the rest of
        the draws then requires of the survivors. */
    method Select(draws: GenerationDraws) returns (survivors: seq<Solution>)
      requires Valid()
      requires ValidGenerationDraws(draws, |population|, |table|, nbPopulation)
      modifies this`population
      ensures Valid() && survivors == old(Selected(population, draws.samples))
      ensures forall k :: 0 <= k < |survivors| ==> survivors[k] in old(population)
      ensures Breedable(survivors, draws.pairs, draws.mutated, draws.mutations)
    {
      ghost var selected := Selected(population, draws.samples);
      survivors := SelectionProcess(draws.samples);
      assert survivors == selected;
    }

    /** crossover_process and mutation_process after the selection: the
        population becomes the survivors followed by their children, with
        the sampled solutions mutated. */
    method Reproduce(survivors: seq<Solution>, pairs: seq<PairDraw>, mutated: seq<nat>, mutations: seq<MutationDraw>)
      returns (ghost bred: seq<seq<int>>)
      requires Valid() && Breedable(survivors, pairs, mutated, mutations)
      modifies this`population, survivors
      ensures Valid()
      ensures |population| == |survivors| + 2 * |pairs| == |bred| && population[..|survivors|] == survivors
      ensures bred[..|survivors|] == old(Chromosomes(survivors))
      ensures AllBred(bred[..|survivors|], pairs, bred[|survivors|..])
      ensures forall k :: |survivors| <= k < |population| ==> fresh(population[k])
      ensures forall k :: 0 <= k < |survivors| ==> population[k] == survivors[k]
      ensures MutationsApplied(bred, Chromosomes(population), mutated, mutations)
    {
      var next;
      next, bred := Breed(survivors, pairs);
      Install(next, |survivors|, bred, mutated, mutations);
    }

    /** mutation_process on the new population, which then replaces the
        population. */
    method Install(next: seq<Solution>, ghost kept: nat, ghost bred: seq<seq<int>>,
                   mutated: seq<nat>, mutations: seq<MutationDraw>)
      requires Valid() && Distinct(next) && kept <= |next| && best !in next
      requires forall k :: 0 <= k < |next| ==> IsTour(next[k].chromosome, |table|)
      requires |table| == 0 ==> next == []
      requires bred == Chromosomes(next)
      requires IsSample(mutated, |next|, MutationCount(nbPopulation)) && |mutations| == |mutated|
      requires forall j :: 0 <= j < |mutations| ==> ValidMutationDraw(mutations[j], |table|)
      modifies this`population, next
      ensures Valid() && population == next
      ensures MutationsApplied(bred, Chromosomes(population), mutated, mutations)
    {
      MutationProcess(next, mutated, mutations);
      population := next;
    }

    /** The survivors followed by the children of crossover_process; `bred`
        are their chromosomes. */
    method Breed(survivors: seq<Solution>, pairs: seq<PairDraw>) returns (next: seq<Solution>, ghost bred: seq<seq<int>>)
      requires Distinct(survivors)
      requires forall k :: 0 <= k < |survivors| ==> IsTour(survivors[k].chromosome, |table|)
      requires forall k :: 0 <= k < |pairs| ==> ValidPairDraw(pairs[k], |survivors|, |table|)
      ensures |next| == |survivors| + 2 * |pairs| && next[..|survivors|] == survivors && Distinct(next)
      ensures forall k :: |survivors| <= k < |next| ==> fresh(next[k])
      ensures forall k :: 0 <= k < |next| ==> IsTour(next[k].chromosome, |table|)
      ensures bred == Chromosomes(next) && bred[..|survivors|] == Chromosomes(survivors)
      ensures AllBred(bred[..|survivors|], pairs, bred[|survivors|..])
    {
      var offspring := CrossoverProcess(survivors, pairs);
      DisjointConcatDistinct(survivors, offspring);
      next := survivors + offspring;
      bred := Chromosomes(next);
      assert bred[..|survivors|] == Chromosomes(survivors) && bred[|survivors|..] == Chromosomes(offspring);
    }

    /** The cut at the end of generate. */
    method Truncate()
      requires Valid() && Evaluated() && Incumbent()
      modifies this`population
      ensures Valid() && Evaluated() && Incumbent()
      ensures population == Truncated(old(population), nbPopulation)
      ensures |population| <= nbPopulation && KeptShortest(population, old(population))
      ensures Measured(old(population), table, best)
    {
      assert Measured(population, table, best);
      if |population| > nbPopulation {
        Cut();
      }
    }

    /** The sort and the slice of the cut, when there is something to drop. */
    method Cut()
      requires Valid() && Measured(population, table, best) && |population| > nbPopulation
      modifies this`population
      ensures Distinct(population) && Measured(population, table, best)
      ensures forall k :: 0 <= k < |population| ==> population[k] in old(population)
      ensures population == Truncated(old(population), nbPopulation)
      ensures |population| == nbPopulation && KeptShortest(population, old(population))
      ensures Measured(old(population), table, best)
    {
      ghost var whole := population;
      population := Sols(Sort(Ranking(population)))[..nbPopulation];
      assert population == Truncated(whole, nbPopulation);
      TruncatedMembers(whole, nbPopulation);
      CutMeasured(whole, nbPopulation);
      TruncatedShortest(whole, nbPopulation);
    }

    /** The solutions the cut keeps are distinct members of p, and measured
        when those of p are. */
    lemma CutMeasured(p: seq<Solution>, nb: nat)
      requires Measured(p, table, best) && Distinct(p) && |p| > nb
      ensures Measured(Truncated(p, nb), table, best) && Distinct(Truncated(p, nb))
    {
      TruncatedMembers(p, nb);
      var r := Truncated(p, nb);
      forall k | 0 <= k < |r|
        ensures IsTour(r[k].chromosome, |table|) && r[k].distance == Evaluate(table, r[k].chromosome)
        ensures !Improves(r[k].distance, LengthOf(best))
      {
        var m := IndexOf(p, r[k]);
      }
    }
  }
}
