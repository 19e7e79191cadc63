# A verified model of the genetic TSP solver of fa.py

fa.py solves the Euclidean travelling salesman problem with a genetic
algorithm. The parts it is made of:

- **Towns and the distance table.** Each town gets an id, its position in
  the input. A table of pairwise distances is computed once.
- **Solutions.** A `Solution` holds a chromosome, which is a permutation of
  the town ids. It also caches the length of the closed tour that
  permutation describes.
- **Problem.** A `Problem` holds a population of solutions and the best
  solution ever seen, the *incumbent*. Each call of `generate` runs four
  steps:
  1. **Selection.** Tournaments of `SIZE_TOURNAMENT_BATTLE` solutions pick
     the survivors. A population of at most 10 is returned unchanged.
  2. **Crossover.** The neighbour-chaining crossover is applied to random
     pairs of survivors.
  3. **Mutation.** Segment-reversal mutation is applied to a random sample of
     the new population.
  4. **Evaluation.** Every tour is re-measured. If the new population holds
     more than `NB_POPULATION` solutions, only the shortest `NB_POPULATION`
     are kept.
- **Convergence.** The text front-end stops once `DELTA_GENERATION` (50)
  generations in a row have left the incumbent's length unchanged. It then
  returns the length and the town names of the incumbent.

The Dafny model follows that structure. The modules are:

- `Numerics`: `equal_double`, Python's `round`, and lengths that may be
  infinite.
- `Towns`: towns and the distance table.
- `Choices`: the random choices, passed in as data.
- `Solutions`: the `Solution` class, the tour length, and the mutation.
- `Crossovers`: the crossover.
- `Problems`: the `Problem` class.
- `Convergence`: the stopping rule.
- `Gui`: `return_solution`.
- `Seqs`: shared sequence facts.

The style of the model follows the source. `Solution` and `Problem` are
classes whose methods update their fields in place. The population is a
field of type `seq<Solution>`, so object identity is modelled. Python's `==`
and `list.remove` on solutions compare objects, and so does the model.
Routines that loop in the source are methods with loops. Each such method is
proved against a specification function, such as `Tournament`, `Sort`,
`Truncated`, `TourLength`, `ReverseSegment` or `Missing`. The algorithm's
properties are proved as lemmas about those functions.

Randomness becomes data. Each call of `randint`, `choice`, `sample` or
`shuffle` becomes an index, a list of distinct indices, or the draws of
Python's Fisher-Yates loop. A retry loop (`while solution2 == solution1`)
becomes a list of redraws. The model proves what holds for every possible
outcome of the draws.

Two behaviours of the code worth stating:

- **Population size.** `generate` keeps *at most* `NB_POPULATION`
  solutions, not exactly that many. For 11 towns the next population has 2
  survivors and 8 children, 10 in all.
- **Convergence.** The comment at fa.py:129 reads "hasn't changed since
  DELTA_GENERATION => STOP". The loop at fa.py:438-444 stops once 50
  generations have run since the last change, so the 51st is never run.
  `Convergence.StopsAfterDelta` proves this count.

## Model

| member | source | states |
|---|---|---|
| `Numerics.EqualDouble` | fa.py:26-31 | true exactly when b lies strictly within epsilon of a |
| `Numerics.EqualDoubleSymmetric` | fa.py:26-31 | the comparison is symmetric in its two arguments |
| `Numerics.Round` | fa.py:204 | Python 2 `round` of a non-negative value: the integer within one half of x, with halves going up |
| `Towns.TownDistance` | fa.py:47-52 | the distance read from the table; on a symmetric table it is the same in both directions |
| `Towns.ComputeAllPossibleDistance` | fa.py:54-65 | the table is n by n and symmetric. With distinct ids, each pair k1 <= k2 holds the metric of the two towns in both halves. The diagonal is zero when the metric of a town with itself is zero |
| `Towns.WritePair` | fa.py:65 | the chained assignment sets both cells of the pair to the metric and leaves every other cell as it was |
| `Towns.WritePairKeeps` | fa.py:61-65 | one write of a pair keeps the table square and symmetric, fills that pair, keeps every earlier pair, and touches the diagonal only for a town paired with itself |
| `Towns.WritePairFills` | fa.py:61-65 | one write of a pair into any list whose rows below n reach column n - 1: the pair is filled, the earlier pairs are kept, and no cell outside the ids below n changes |
| `Towns.Grown` | fa.py:56-59 | the class-wide list after k rounds of the first loop keeps every row it held as a prefix: rows below k have gained n cells, k new rows follow the earlier ones, and every cell gained is zero |
| `Towns.GrownCovers` | fa.py:56-59 | after the first loop, rows 0..n-1 reach column n - 1, whatever an earlier problem left in the list |
| `Towns.GrownExample` | fa.py:56-59 | after a one-town problem, a two-town problem finds the list [[0.0, 0, 0], [0, 0], []] before its writes |
| `Towns.GrowList` | fa.py:56-59 | the first loop, as written on the class-wide list, leaves the list that `Grown` describes |
| `Towns.ComputeOnClassList` | fa.py:54-65 | on the class-wide list: the shape is that of the grown list, and the ids below n index every write. With distinct ids every pair holds its metric in both halves. Cells outside the ids below n keep what the first loop left |
| `Towns.IdsCover` | fa.py:138-146 | n towns with distinct ids in [0, n) carry every id in [0, n) |
| `Towns.SharedReadsAgree` | fa.py:47-65 | two tables that both hold every pair read the same at every two ids below n. So `compute_distance` on the class-wide list gives what the problem's own table gives |
| `Choices.Shuffle` | fa.py:154 | `random.shuffle` driven by Fisher-Yates draws: the result is a permutation of its input |
| `Choices.DrawDifferent` | fa.py:217-220 | the retry loop returns the first redraw that differs from the first choice |
| `Solutions.Solution.constructor` | fa.py:70-72 | a new solution holds the chromosome and a cached length of 0 |
| `Solutions.Solution.Copy` | fa.py:175 | `deepcopy` of a solution: same chromosome, same length |
| `Solutions.Solution.ComputeDistance` | fa.py:91-100 | the cached length becomes the closed-tour length: the consecutive edges plus the edge from the first town to the last |
| `Solutions.PathLengthCons` | fa.py:91-100 | the path length also decomposes from the front |
| `Solutions.PathLengthReversed` | fa.py:91-100 | on a symmetric table a path is as long backwards as forwards |
| `Solutions.TourLengthReversed` | fa.py:91-100 | on a symmetric table a tour is as long in either direction |
| `Solutions.PathLengthNonNegative` | fa.py:91-100 | with non-negative distances the path length is non-negative |
| `Solutions.TourLengthNonNegative` | fa.py:91-100 | with non-negative distances the tour length is non-negative |
| `Solutions.ReverseSegment` | fa.py:102-117 | position by position: an index inside [i, j] holds the mirror element, and every other index is unchanged |
| `Solutions.ReverseSegmentMultiset` | fa.py:102-117 | reversing a segment only reorders the ids |
| `Solutions.ReverseSegmentInvolution` | fa.py:102-117 | reversing the same segment twice restores the chromosome |
| `Solutions.MutateExample` | fa.py:104-106 | the documented example: positions 5 and 8 of [0..11] give [0,1,2,3,4,8,7,6,5,9,10,11] |
| `Solutions.MutatedByMultiset` | fa.py:102-117 | any mutation outcome is a permutation of the chromosome |
| `Solutions.Solution.Mutate` | fa.py:102-117 | the chromosome becomes the original with the inclusive segment between gene1 and the first different redraw reversed |
| `Crossovers.LeftWalkMultiset` | fa.py:235 | the leftward walk with wrap-around visits every position once |
| `Crossovers.MissingProps` | fa.py:250-253 | the collected ids are distinct: exactly the ids of the walk that are not in the chain |
| `Crossovers.MissingOfWalk` | fa.py:250-253 | a full walk collects exactly the ids the chain lacks, each once, n - \|g\| of them |
| `Crossovers.MissingConcat` | fa.py:250-253 | collecting along two walk segments is collecting along each |
| `Crossovers.CompletePermutation` | fa.py:248-256 | the chain followed by the ids it lacks is a permutation of ga |
| `Crossovers.GrowChain` | fa.py:227-246 | the chain loop terminates. The chain has no repeated id and at most n ids, holds the chosen town, and is the lockstep chain: with a towns on the left and b on the right, the left side stopped in round a + 1 on a town already among a left and min(a, b) right towns, and the right side stopped in round b + 1 on a town already among min(a, b + 1) left and b right towns |
| `Crossovers.LeftSide` | fa.py:235-241 | the left half of a round: the town is prepended unless it is already in the chain, which stops that side and records the chain it met |
| `Crossovers.RightSide` | fa.py:236-246 | the right half of a round, along gb, after the left half: the town is appended unless it is already in the chain, which stops that side and records the chain it met |
| `Crossovers.StoppedFromCursors` | fa.py:234-246 | when both sides have stopped, the chain is the lockstep chain of the rounds the cursors record |
| `Crossovers.SubChain` | fa.py:238-244 | a chain with fewer towns on each side is a contiguous part of a longer one, at the same offset from the pivot |
| `Crossovers.BeyondSubChain` | fa.py:238-243 | in a chain with no town twice, a town added later on either side is not in any shorter chain inside it |
| `Crossovers.LeftRoundsAgree` | fa.py:234-246 | two stopping descriptions of the same loop have the same number of left towns |
| `Crossovers.RightRoundsAgree` | fa.py:234-246 | with the same left count, they have the same number of right towns |
| `Crossovers.StoppedChainUnique` | fa.py:234-246 | the contract of the chain loop admits exactly one chain for given parents and pivot |
| `Crossovers.ExamplePivot` | fa.py:229-231 | in [0, 1, 2, 3] town 1 sits at position 1 |
| `Crossovers.ExampleStops` | fa.py:234-246 | parents [0, 1, 2, 3] twice with the pivot at town 1: 2 left and 1 right towns fit the loop, giving the chain [3, 0, 1, 2] |
| `Crossovers.ChainExample` | fa.py:226-258 | for those parents and pivot, [3, 0, 1, 2] is the only child the contract of `Crossover` admits |
| `Crossovers.GrowLeft` | fa.py:238-239 | prepending a town the chain lacks keeps the chain's shape and distinctness |
| `Crossovers.GrowRight` | fa.py:243-244 | appending a town the chain lacks keeps the chain's shape and distinctness |
| `Crossovers.ChainFromPositions` | fa.py:227-246 | the chain the loop builds is the left walk of ga, reversed, then the town, then the right walk of gb |
| `Crossovers.CollectRemaining` | fa.py:248-253 | the fill walk stops, having collected exactly the towns missing from the chain, in walk order, each once |
| `Crossovers.CollectOne` | fa.py:250-252 | one step of the fill walk: the cursor moves one town left and the collected towns stay the missing ones among the towns walked so far |
| `Crossovers.CollectDone` | fa.py:249-252 | when the chain and the collected towns number n, the collected towns are all the missing ones, distinct |
| `Crossovers.ChainAndRest` | fa.py:248-256 | the chain followed by the missing towns in any order is a permutation of ga |
| `Crossovers.WholeChain` | fa.py:249 | a chain as long as ga is already a permutation of it |
| `Crossovers.PopAll` | fa.py:255-256 | popping until the list is empty appends the remaining towns last first |
| `Crossovers.Crossover` | fa.py:226-258 | the child is a permutation of ga. It begins with the lockstep chain grown from the chosen town, leftward along ga and rightward along gb, each side stopping in the round where it met a town already in the chain |
| `Problems.GenerationFits` | fa.py:204-216 | survivors plus children never exceed NB_POPULATION |
| `Problems.TenthsRound` | fa.py:204 | the two rounded counts, of 0.2 and of 0.8 times the population size, are within one half of the exact value |
| `Problems.TourFacts` | fa.py:149-156 | a tour has n distinct ids, each in [0, n) |
| `Problems.ImprovesBelow` | fa.py:173-175 | an improvement is at least epsilon below the incumbent |
| `Problems.ImprovesTransitive` | fa.py:172-175 | improving on an improvement improves on the original |
| `Problems.NotImprovesStays` | fa.py:172-175 | a length that did not improve on the incumbent does not improve on a later, better incumbent either |
| `Problems.Insert` | fa.py:189 | insertion into a sorted list keeps it sorted and adds exactly the element |
| `Problems.SortedCons` | fa.py:189 | a key no larger than the head's extends a sorted list at the front |
| `Problems.Sort` | fa.py:189 | the sort by length is ascending and a permutation |
| `Problems.WithKeyCons` | fa.py:189 | the entries of one key in a list with a new head: the head if it has that key, then those of the tail |
| `Problems.InsertBehind` | fa.py:189 | an entry with a larger key than the head goes behind it |
| `Problems.ConsWithKeyShift` | fa.py:189 | a head with a smaller key than x and x can be swapped in the per-key view |
| `Problems.InsertWithKey` | fa.py:189 | an insertion puts the new entry before the other entries of its key and keeps the entries of every other key in order |
| `Problems.SortStable` | fa.py:189 | `list.sort` is stable: for every length, the solutions of that length come out in the order they went in |
| `Problems.TruncateKeepsShortest` | fa.py:189-190 | after the sort, every kept entry is at most as long as every dropped one |
| `Problems.FirstMin` | fa.py:205-206 | the first sampled position of least length, which a stable sort puts at index 0 |
| `Problems.Tournament` | fa.py:199-209 | the tournament yields one survivor per round and leaves the rest |
| `Problems.TournamentSplits` | fa.py:204-208 | survivors and rest together are the pool rearranged |
| `Problems.TournamentWins` | fa.py:205-208 | survivor i is a solution of round i's sample of least length, and the first such in the sample's order |
| `Problems.TournamentDistinct` | fa.py:207-208 | the survivors are distinct solutions of the pool |
| `Problems.SortedCut` | fa.py:189-190 | no dropped entry is shorter than a kept one |
| `Problems.TruncatedMembers` | fa.py:188-190 | the cut keeps min(\|p\|, NB) distinct solutions of p |
| `Problems.TruncatedKeys` | fa.py:189-190 | the kept solutions are the first entries of the sort, each keyed by its own length |
| `Problems.TruncatedShortest` | fa.py:188-190 | the cut population is ascending by length, and no solution it dropped is shorter than one it kept |
| `Problems.OffspringTour` | fa.py:222-223 | the child of two tours is a tour |
| `Problems.Problem.constructor` | fa.py:131-147 | ids are 0..n-1 in input order and keys is range(0, n). The table holds the metric of every pair and is symmetric. There is no population and no incumbent yet |
| `Problems.Problem.CreatePopulation` | fa.py:149-156 | NB_POPULATION fresh solutions, each a tour with length 0, are appended after the existing ones |
| `Problems.Problem.ComputeAllDistances` | fa.py:167-175 | every cached length becomes the length of its tour, and no solution improves on the incumbent. The incumbent changes only to a fresh copy of a population member, with that member's tour and length, that strictly improves on the old one beyond epsilon. It never gets longer |
| `Problems.Problem.Consider` | fa.py:172-175 | one solution is measured; it becomes the incumbent exactly when it improves on it |
| `Problems.Problem.Initialize` | fa.py:158-165 | the population is NB_POPULATION evaluated tours; the incumbent exists when the population is not empty, and it is then a fresh copy of a population member's tour and length |
| `Problems.Problem.SelectionProcess` | fa.py:195-209 | at most 10 solutions: the population itself. Otherwise the survivors are the tournament winners, which are distinct, were removed from the population, and are not the incumbent |
| `Problems.Problem.Select` | fa.py:182 | the survivors are what the selection returns for the population before it, each taken from it, and they and the draws meet what crossover and mutation need |
| `Problems.Problem.RunTournament` | fa.py:204-208 | the loop ends with the survivors and the rest that `Tournament` defines |
| `Problems.Problem.TournamentRound` | fa.py:205-208 | one round moves the winner from the rest to the survivors |
| `Problems.Problem.TournamentMembers` | fa.py:207-208 | survivors and rest are distinct solutions of the population |
| `Problems.Problem.CrossoverProcess` | fa.py:211-224 | two fresh children per pair, in order. Each child is a tour bred by `Crossover` from solution1 and the first different redraw, in both orders |
| `Problems.Problem.BreedAll` | fa.py:216-223 | the loop over the pairs breeds all children, two per pair |
| `Problems.BreedingStep` | fa.py:216-223 | the two children of the next pair extend the bred children by one pair |
| `Problems.Problem.BreedPair` | fa.py:217-223 | one pair: two distinct parents and two children that are tours |
| `Problems.Problem.NewSolutions` | fa.py:258 | one fresh solution per child chromosome, length 0 |
| `Problems.Problem.MutationProcess` | fa.py:260-265 | each sampled solution is mutated by its draw, the other chromosomes and all cached lengths are unchanged, and every chromosome stays a tour |
| `Problems.Problem.MutateAt` | fa.py:264-265 | one sampled solution mutates in place |
| `Problems.Problem.MutateOne` | fa.py:266 | `s.mutate()` on a tour: the result is a tour obtained by the mutation, and the cached length is untouched |
| `Problems.MutatingStep` | fa.py:265-266 | applying the next draw extends the applied mutations by one and keeps every chromosome a tour |
| `Problems.MutatingDone` | fa.py:265-266 | once all draws are used, all mutations have been applied |
| `Problems.Problem.Generate` | fa.py:177-193 | the candidates are the selection followed by the children of the survivors, mutated as drawn. Every candidate, kept or dropped, is evaluated, and none improves on the incumbent. The population becomes the candidates cut to NB_POPULATION, and no dropped candidate is shorter than a kept one. The returned incumbent is unchanged, or a fresh strict improvement with a candidate's tour and length |
| `Problems.Problem.NextPopulation` | fa.py:179-184 | selection, crossover and mutation produce the new population before evaluation |
| `Problems.Problem.Reproduce` | fa.py:180-184 | the survivors, then their children, with the sampled solutions mutated |
| `Problems.Problem.Breed` | fa.py:180 | the survivors followed by their children, all distinct |
| `Problems.Problem.Install` | fa.py:181-184 | mutation and then replacement of the population |
| `Problems.Problem.Settle` | fa.py:184-191 | evaluation of every candidate, then the cut, which drops no candidate shorter than one it keeps; a new incumbent copies a candidate's tour and length |
| `Problems.Problem.Truncate` | fa.py:188-190 | the population becomes its first NB_POPULATION after a stable sort by length, no dropped solution is shorter than a kept one, and the invariants are kept |
| `Problems.Problem.Cut` | fa.py:188-190 | the sort and the slice when there is something to drop: the kept solutions are the cut of the old population, distinct, evaluated and no longer than any dropped one, and the old population stays evaluated |
| `Problems.Problem.CutMeasured` | fa.py:188-190 | the cut of distinct evaluated tours keeps distinct evaluated tours |
| `Convergence.AsWrittenDiffersAtInfinity` | fa.py:26-31 | equal_double on floats as written and the corrected comparison differ exactly when both lengths are the inf sentinel |
| `Convergence.SameLength` | fa.py:440 | the intended comparison: two infinite lengths are equal, otherwise equal_double |
| `Convergence.StepsShape` | fa.py:431-444 | after k generations the next index is k + 1 and the last change lies within the first k |
| `Convergence.QuietTail` | fa.py:438-444 | no generation after the last change changed the tracked length |
| `Convergence.StopsAfterDelta` | fa.py:438-444 | when the loop stops, exactly DELTA_GENERATION generations have run since the last change |
| `Convergence.AsWrittenNeverStops` | fa.py:438-444 | as written, an incumbent that never exists keeps the loop running for any number of generations |
| `Convergence.ConstantStops` | fa.py:438-444 | with the intended comparison, a constant length, infinite or not, stops the loop after exactly 50 generations |
| `Convergence.ReplacementIsChange` | fa.py:172-175 | the counter sees a change exactly when generate replaced the incumbent |
| `Convergence.Converge` | fa.py:438-444 | the loop, with the comparison of lengths as a parameter, runs while the rule allows. It stops as soon as the rule says so, unless the supplied lengths run out first |
| `Convergence.ConvergeNoTownsAsWritten` | fa.py:438-444 | the loop as written, with `equal_double` (fa.py:26-31) on floats, uses every generation it is given when there are no towns: it has no end of its own |
| `Convergence.ConvergeNoTownsCorrected` | fa.py:438-444 | the loop with the corrected comparison runs min(n, 50) generations when there are no towns |
| `Gui.ReturnSolution` | fa.py:450-458 | the incumbent's length, and the name of each id of its chromosome in tour order; the absent incumbent gives infinity and no names |
| `Gui.NamesPermuteInput` | fa.py:450-458 | for a tour, the names returned are the input's names, each once, in the order of the tour |

## Left out

- Floating point: lengths and coordinates are exact reals. `hypot` is a metric passed in to the constructor. The products behind the counts, such as `0.8 * NB_POPULATION`, are exact.
- `Numerics.Round`: stated for non-negative arguments only, which is all the source passes it.
- `Problems.Problem.constructor`: `NB_POPULATION` is a class attribute that every new problem overwrites. The model makes it a per-problem constant.
- `Problems.Problem.Initialize`: `best_solution` becomes the sentinel `Solution([])` of length infinity. The model writes `null` for it and for the `None` before `initialize`. `Gui.ReturnSolution` maps `null` to the sentinel's `(inf, [])`.
- Retry loops that never end are excluded by the draw predicates. These are `mutate` on one town and a pair draw whose redraws never differ. `sample` on a pool smaller than the tournament size raises an error, and the draw predicates exclude that too. The two loops are reachable on real input only when their counts are zero.
- `Crossovers.Crossover`: the order of the towns after the chain is only stated to be a permutation of the missing towns. The shuffle draws are not tied to the order popped.
- `Problems.Problem.CrossoverProcess`: Python allocates each `Solution` inside `crossover`. The model breeds chromosomes first and allocates the solutions afterwards, which gives the same objects and order.
- `Problems.Problem.CreatePopulation` and `Problems.Problem.Generate`: object freshness and the heap frame are stated with `fresh` and `modifies`.
- `Convergence.Converge`: the lengths that successive `generate` calls return are an input sequence. Its end bounds the loop. The comparison is a parameter: `EqualLengthsAsWritten` gives the loop as written, and `SameLength` the corrected one of the "Findings" section. The time-limited mode (`clock`) is left out.
- TS_GUI.display: drawing, pygame events and `wait_to_quit` are left out. It uses the same counter as `display_text_only`, checked after each step.
- Command-line parsing, reading the city file, `printVerbose`, and the JeanmonodRoulin.py entry point are left out.
- `Towns.ComputeAllPossibleDistance`: a problem's table is its own n by n value. The source keeps one class-wide `PRECALCULATE_LIST`; `Towns.ComputeOnClassList` models it as written, and `Towns.SharedReadsAgree` shows it gives the same reads for ids below n. `Problems.Problem` uses its own table, so the list's growth across problems is not carried from one problem to the next.

## Findings

| source | as written | input that shows it | evidently intended | confidence | as-written member | corrected member |
|---|---|---|---|---|---|---|
| fa.py:26-31, fa.py:438-444 | With no towns the incumbent stays the `inf` sentinel. `equal_double(inf, inf)` computes `abs(nan) < 1e-6`, which is false, so every generation counts as a change and the loop never ends | a city file with no lines, run with `-n`, so that `display_text_only` runs the loop | an incumbent that is still absent has not changed, and the loop stops after 50 generations | not executed | `Convergence.ConvergeNoTownsAsWritten` | `Convergence.ConvergeNoTownsCorrected` |
