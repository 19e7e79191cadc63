/** Towns and the precomputed table of pairwise distances
    (class Town of fa.py). A problem's table is a value of its own; the
    class-wide list that the source keeps is modelled beside it, and the
    two agree on every read by ids of the problem's towns. */
module Towns {
  import opened Seqs

  /** A town: its id (its index in the table), its name and its coordinates. */
  datatype Town = Town(id: int, name: string, x: real, y: real)

  /** A table of distances, indexed by town ids. */
  type Matrix = seq<seq<real>>

  predicate IsSquare(d: Matrix, n: nat) {
    |d| == n && forall i :: 0 <= i < n ==> |d[i]| == n
  }

  /** Every row below n reaches column n - 1: ids below n can index it. */
  predicate Covers(d: Matrix, n: nat) {
    n <= |d| && forall i :: 0 <= i < n ==> n <= |d[i]|
  }

  /** The same number of rows, each of the same length. */
  predicate SameShape(d: Matrix, e: Matrix) {
    |d| == |e| && forall i :: 0 <= i < |d| ==> |d[i]| == |e[i]|
  }

  /** d and e agree on every cell outside the block of ids below n. */
  predicate KeptOutside(d: Matrix, e: Matrix, n: nat)
    requires SameShape(d, e)
  {
    forall i, j :: 0 <= i < |d| && 0 <= j < |d[i]| && (n <= i || n <= j) ==> d[i][j] == e[i][j]
  }

  predicate Symmetric(d: Matrix)
    requires IsSquare(d, |d|)
  {
    forall i, j :: 0 <= i < |d| && 0 <= j < |d| ==> d[i][j] == d[j][i]
  }

  /** Every id can index a table built for these towns. */
  predicate IdsInRange(cities: seq<Town>) {
    forall k :: 0 <= k < |cities| ==> 0 <= cities[k].id < |cities|
  }

  /** No two towns share an id. */
  predicate DistinctIds(cities: seq<Town>) {
    forall k1, k2 :: 0 <= k1 < k2 < |cities| ==> cities[k1].id != cities[k2].id
  }

  /** The cells of the pair at positions a <= b both hold the metric of that pair. */
  predicate PairFilled(d: Matrix, cities: seq<Town>, metric: (Town, Town) -> real, a: nat, b: nat)
    requires IdsInRange(cities) && Covers(d, |cities|)
    requires a <= b < |cities|
  {
    var v := metric(cities[a], cities[b]);
    d[cities[a].id][cities[b].id] == v && d[cities[b].id][cities[a].id] == v
  }

  /** Town.compute_distance: the distance between two towns given by id is
      read from the table. */
  function TownDistance(d: Matrix, t1: int, t2: int): (r: real)
    requires IsSquare(d, |d|)
    requires 0 <= t1 < |d| && 0 <= t2 < |d|
    ensures Symmetric(d) ==> r == d[t2][t1]
  {
    d[t1][t2]
  }

  /** Town.compute_all_possible_distance: an n x n table of zeros, then for
      every pair of positions k1 <= k2 the metric of the two towns, written
      into both halves at once. `metric` stands for the Euclidean distance. */
  method ComputeAllPossibleDistance(cities: seq<Town>, metric: (Town, Town) -> real) returns (table: Matrix)
    requires IdsInRange(cities)
    ensures IsSquare(table, |cities|)
    ensures Symmetric(table)
    ensures DistinctIds(cities) ==>
      forall a, b :: 0 <= a <= b < |cities| ==> PairFilled(table, cities, metric, a, b)
    ensures DistinctIds(cities) && (forall t :: metric(t, t) == 0.0) ==>
      forall i :: 0 <= i < |cities| ==> table[i][i] == 0.0
  {
    var n := |cities|;
    table := [];
    var k1 := 0;
    while k1 < n
      invariant 0 <= k1 <= n
      invariant |table| == k1
      invariant forall i :: 0 <= i < k1 ==> table[i] == seq(n, _ => 0.0)
    {
      var row := [];
      var k2 := 0;
      while k2 < n
        invariant 0 <= k2 <= n
        invariant row == seq(k2, _ => 0.0)
      {
        row := row + [0.0];
        k2 := k2 + 1;
      }
      table := table + [row];
      k1 := k1 + 1;
    }

    k1 := 0;
    while k1 < n
      invariant 0 <= k1 <= n
      invariant IsSquare(table, n) && Symmetric(table)
      invariant FilledBefore(table, cities, metric, k1, k1)
      invariant DiagonalSeen(table, cities, metric, k1)
    {
      var k2 := k1;
      while k2 < n
        invariant k1 <= k2 <= n
        invariant IsSquare(table, n) && Symmetric(table)
        invariant FilledBefore(table, cities, metric, k1, k2)
        invariant DiagonalSeen(table, cities, metric, k1 + 1)
      {
        var c1 := cities[k1].id;
        var c2 := cities[k2].id;
        var v := metric(cities[k1], cities[k2]);
        ghost var before := table;
        table := table[c1 := table[c1][c2 := v]];
        table := table[c2 := table[c2][c1 := v]];
        assert table == WritePair(before, c1, c2, v);
        WritePairKeeps(before, cities, metric, k1, k2);
        k2 := k2 + 1;
      }
      k1 := k1 + 1;
    }
  }

  /** The two writes of one pair: d[c1][c2] and then d[c2][c1] become v. */
  function WritePair(d: Matrix, c1: int, c2: int, v: real): (r: Matrix)
    requires 0 <= c1 < |d| && 0 <= c2 < |d| && c2 < |d[c1]| && c1 < |d[c2]|
    ensures SameShape(r, d) && r[c1][c2] == v && r[c2][c1] == v
    ensures forall i, j :: 0 <= i < |d| && 0 <= j < |d[i]| && !(i == c1 && j == c2) && !(i == c2 && j == c1) ==>
      r[i][j] == d[i][j]
  {
    var e := d[c1 := d[c1][c2 := v]];
    e[c2 := e[c2][c1 := v]]
  }

  /** With distinct ids, every pair before (k1, k2) in the order of the
      loops has been written. */
  ghost predicate FilledBefore(d: Matrix, cities: seq<Town>, metric: (Town, Town) -> real, k1: nat, k2: nat)
    requires IdsInRange(cities) && Covers(d, |cities|)
  {
    DistinctIds(cities) ==>
      forall a, b :: 0 <= a <= b < |cities| && (a < k1 || (a == k1 && b < k2)) ==> PairFilled(d, cities, metric, a, b)
  }

  /** With distinct ids, a non-zero diagonal cell was written by one of the
      first `upto` towns paired with itself. */
  ghost predicate DiagonalSeen(d: Matrix, cities: seq<Town>, metric: (Town, Town) -> real, upto: nat)
    requires IsSquare(d, |cities|)
  {
    DistinctIds(cities) ==>
      forall i :: 0 <= i < |cities| && d[i][i] != 0.0 ==>
        exists k :: 0 <= k < upto && k < |cities| && cities[k].id == i && d[i][i] == metric(cities[k], cities[k])
  }

  /** Writing pair (k1, k2) keeps the table square and symmetric, fills that
      pair without disturbing the earlier ones, and writes the diagonal only
      for a town paired with itself. */
  lemma WritePairKeeps(d: Matrix, cities: seq<Town>, metric: (Town, Town) -> real, k1: nat, k2: nat)
    requires IdsInRange(cities) && k1 <= k2 < |cities|
    requires IsSquare(d, |cities|) && Symmetric(d)
    requires FilledBefore(d, cities, metric, k1, k2) && DiagonalSeen(d, cities, metric, k1 + 1)
    ensures var r := WritePair(d, cities[k1].id, cities[k2].id, metric(cities[k1], cities[k2]));
      IsSquare(r, |cities|) && Symmetric(r) &&
      FilledBefore(r, cities, metric, k1, k2 + 1) && DiagonalSeen(r, cities, metric, k1 + 1)
  {
    var c1, c2, v := cities[k1].id, cities[k2].id, metric(cities[k1], cities[k2]);
    var r := WritePair(d, c1, c2, v);
    WritePairFills(d, d, cities, metric, k1, k2);
    if DistinctIds(cities) {
      forall i | 0 <= i < |cities| && r[i][i] != 0.0
        ensures exists k :: 0 <= k < k1 + 1 && k < |cities| && cities[k].id == i && r[i][i] == metric(cities[k], cities[k])
      {
        if i == c1 && i == c2 {
          assert k1 == k2;
        } else {
          assert r[i][i] == d[i][i];
        }
      }
    }
  }

  /** Writing pair (k1, k2) into a table that covers the ids fills that
      pair, keeps the earlier pairs and the shape, and changes no cell
      outside the block of ids below n. */
  lemma WritePairFills(d: Matrix, e: Matrix, cities: seq<Town>, metric: (Town, Town) -> real, k1: nat, k2: nat)
    requires IdsInRange(cities) && k1 <= k2 < |cities|
    requires Covers(d, |cities|) && SameShape(d, e) && KeptOutside(d, e, |cities|)
    requires FilledBefore(d, cities, metric, k1, k2)
    ensures var r := WritePair(d, cities[k1].id, cities[k2].id, metric(cities[k1], cities[k2]));
      Covers(r, |cities|) && SameShape(r, e) && KeptOutside(r, e, |cities|) &&
      FilledBefore(r, cities, metric, k1, k2 + 1)
  {
    var c1, c2, v := cities[k1].id, cities[k2].id, metric(cities[k1], cities[k2]);
    var r := WritePair(d, c1, c2, v);
    if DistinctIds(cities) {
      forall a, b | 0 <= a <= b < |cities| && (a < k1 || (a == k1 && b < k2 + 1))
        ensures PairFilled(r, cities, metric, a, b)
      {
        if a != k1 || b != k2 {
          assert PairFilled(d, cities, metric, a, b);
          assert a != k2 || b != k1;
        }
      }
    }
  }

  /** Row i of Town.PRECALCULATE_LIST before a problem starts: the row an
      earlier problem left, or none. */
  function Base(previous: Matrix, i: int): seq<real> {
    if 0 <= i < |previous| then previous[i] else []
  }

  function Zeros(n: nat): (r: seq<real>)
    ensures |r| == n && forall j :: 0 <= j < n ==> r[j] == 0.0
  {
    seq(n, _ => 0.0)
  }

  /** Town.PRECALCULATE_LIST after k rounds of the first loop of
      compute_all_possible_distance on n towns: each round appends an empty
      row at the end of the list and then n zeros to row k1, so rows below k
      have grown by n zeros (the integer 0 of the source, written 0.0) and
      k empty rows follow the earlier ones. Every row keeps what it held,
      and what it gained is zeros. */
  function Grown(previous: Matrix, n: nat, k: nat): (r: Matrix)
    ensures |r| == |previous| + k
    ensures forall i :: 0 <= i < |r| ==> |r[i]| == |Base(previous, i)| + (if i < k then n else 0)
    ensures forall i :: 0 <= i < |r| ==> Base(previous, i) <= r[i]
    ensures forall i, j :: 0 <= i < |r| && |Base(previous, i)| <= j < |r[i]| ==> r[i][j] == 0.0
  {
    seq(|previous| + k, i => if i < k then Base(previous, i) + Zeros(n) else Base(previous, i))
  }

  /** A list that grew for n towns covers their ids, whatever an earlier
      problem left in it. */
  lemma GrownCovers(previous: Matrix, n: nat)
    ensures Covers(Grown(previous, n, n), n)
  {
  }

  /** After a problem of one town, a problem of two towns finds rows 0 and 1
      long enough for columns 0 and 1: every write of its pairs is in range. */
  lemma GrownExample()
    ensures Grown([[0.0]], 2, 2) == [[0.0, 0.0, 0.0], [0.0, 0.0], []]
  {
    var r := Grown([[0.0]], 2, 2);
    assert Zeros(2) == [0.0, 0.0];
    assert r[0] == [0.0] + Zeros(2) && r[1] == [] + Zeros(2) && r[2] == [];
    assert |r| == 3 && r[0] == [0.0, 0.0, 0.0] && r[1] == [0.0, 0.0];
  }

  /** The first loop of compute_all_possible_distance on the class-wide
      list: for each of the n towns, a new empty row at the end, then n
      zeros appended to the row of that town's index. */
  method GrowList(previous: Matrix, n: nat) returns (list: Matrix)
    ensures list == Grown(previous, n, n)
  {
    list := previous;
    var k1 := 0;
    assert list == Grown(previous, n, 0);
    while k1 < n
      invariant 0 <= k1 <= n && list == Grown(previous, n, k1)
    {
      list := list + [[]];
      var k2 := 0;
      assert Zeros(0) == [];
      while k2 < n
        invariant 0 <= k2 <= n && |list| == |previous| + k1 + 1
        invariant forall i :: 0 <= i < |list| && i != k1 ==> list[i] == Grown(previous, n, k1 + 1)[i]
        invariant list[k1] == Base(previous, k1) + Zeros(k2)
      {
        assert Zeros(k2) + [0.0] == Zeros(k2 + 1);
        list := list[k1 := list[k1] + [0.0]];
        k2 := k2 + 1;
      }
      assert list == Grown(previous, n, k1 + 1);
      k1 := k1 + 1;
    }
  }

  /** Town.compute_all_possible_distance as written, on the class-wide
      Town.PRECALCULATE_LIST that holds `previous` before the call. The
      first loop grows the list; the second writes every pair k1 <= k2
      into the cells of its two ids. Cells outside the block of ids below n
      keep what the first loop left. */
  method ComputeOnClassList(previous: Matrix, cities: seq<Town>, metric: (Town, Town) -> real) returns (list: Matrix)
    requires IdsInRange(cities)
    ensures SameShape(list, Grown(previous, |cities|, |cities|)) && Covers(list, |cities|)
    ensures KeptOutside(list, Grown(previous, |cities|, |cities|), |cities|)
    ensures DistinctIds(cities) ==>
      forall a, b :: 0 <= a <= b < |cities| ==> PairFilled(list, cities, metric, a, b)
  {
    var n := |cities|;
    list := GrowList(previous, n);
    ghost var grown := list;
    GrownCovers(previous, n);
    var k1 := 0;
    while k1 < n
      invariant 0 <= k1 <= n
      invariant Covers(list, n) && SameShape(list, grown) && KeptOutside(list, grown, n)
      invariant FilledBefore(list, cities, metric, k1, k1)
    {
      var k2 := k1;
      while k2 < n
        invariant k1 <= k2 <= n
        invariant Covers(list, n) && SameShape(list, grown) && KeptOutside(list, grown, n)
        invariant FilledBefore(list, cities, metric, k1, k2)
      {
        var c1 := cities[k1].id;
        var c2 := cities[k2].id;
        var v := metric(cities[k1], cities[k2]);
        ghost var before := list;
        list := list[c1 := list[c1][c2 := v]];
        list := list[c2 := list[c2][c1 := v]];
        assert list == WritePair(before, c1, c2, v);
        WritePairFills(before, grown, cities, metric, k1, k2);
        k2 := k2 + 1;
      }
      k1 := k1 + 1;
    }
  }

  /** Some town has id i. */
  ghost predicate HasId(cities: seq<Town>, i: int) {
    exists k :: 0 <= k < |cities| && cities[k].id == i
  }

  /** Towns with distinct ids in range carry every id below n. */
  lemma IdsCover(cities: seq<Town>)
    requires IdsInRange(cities) && DistinctIds(cities)
    ensures forall i :: 0 <= i < |cities| ==> HasId(cities, i)
  {
    var n := |cities|;
    var ids := seq(n, k requires 0 <= k < n => cities[k].id);
    var u := Elems(Iota(n));
    DistinctCard(Iota(n));
    assert Elems(ids) <= u by {
      forall v | v in Elems(ids) ensures v in u {
        var k :| 0 <= k < n && ids[k] == v;
        assert Iota(n)[v] == v;
      }
    }
    DistinctInSet(ids, u);
    forall i | 0 <= i < n ensures HasId(cities, i) {
      assert Iota(n)[i] == i;
      assert i in Elems(ids);
      var k :| 0 <= k < n && ids[k] == i;
    }
  }

  /** Two tables that both hold every pair of distinct ids in range read the
      same at every two ids below n: the problem's own table and the block
      of the class-wide list are interchangeable for compute_distance. */
  lemma SharedReadsAgree(d: Matrix, e: Matrix, cities: seq<Town>, metric: (Town, Town) -> real)
    requires IdsInRange(cities) && DistinctIds(cities)
    requires Covers(d, |cities|) && Covers(e, |cities|)
    requires forall a, b :: 0 <= a <= b < |cities| ==> PairFilled(d, cities, metric, a, b)
    requires forall a, b :: 0 <= a <= b < |cities| ==> PairFilled(e, cities, metric, a, b)
    ensures forall i, j :: 0 <= i < |cities| && 0 <= j < |cities| ==> d[i][j] == e[i][j]
  {
    IdsCover(cities);
    forall i, j | 0 <= i < |cities| && 0 <= j < |cities| ensures d[i][j] == e[i][j] {
      assert HasId(cities, i) && HasId(cities, j);
      var ki :| 0 <= ki < |cities| && cities[ki].id == i;
      var kj :| 0 <= kj < |cities| && cities[kj].id == j;
      assert PairFilled(d, cities, metric, Min(ki, kj), Max(ki, kj));
      assert PairFilled(e, cities, metric, Min(ki, kj), Max(ki, kj));
    }
  }
}
