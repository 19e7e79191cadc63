/** TS_GUI.return_solution: the result handed back by ga_solve, the length
    of the best tour and the names of its towns in visiting order. */
module Gui {
  import opened Seqs
  import opened Numerics
  import opened Towns
  import opened Solutions
  import opened Problems

  /** The town names of the input, in input order. */
  function InputNames(cities: seq<(string, real, real)>): (r: seq<string>)
    ensures |r| == |cities| && forall k :: 0 <= k < |cities| ==> r[k] == cities[k].0
  {
    seq(|cities|, k requires 0 <= k < |cities| => cities[k].0)
  }

  /** return_solution: looks every id of the chromosome up in cities_dict.
      The incumbent that never existed (the length-infinity sentinel) gives
      an infinite length and no towns. */
  method ReturnSolution(citiesDict: map<int, Town>, solution: Solution?) returns (distance: Length, cities: seq<string>)
    requires solution != null ==> forall k :: 0 <= k < |solution.chromosome| ==> solution.chromosome[k] in citiesDict
    ensures distance == LengthOf(solution)
    ensures solution == null ==> cities == []
    ensures solution != null ==> |cities| == |solution.chromosome|
    ensures solution != null ==>
      forall k :: 0 <= k < |cities| ==> cities[k] == citiesDict[solution.chromosome[k]].name
  {
    cities := [];
    if solution == null {
      return Infinity, cities;
    }
    var c := 0;
    while c < |solution.chromosome|
      invariant 0 <= c <= |solution.chromosome| && |cities| == c
      invariant forall k :: 0 <= k < c ==> cities[k] == citiesDict[solution.chromosome[k]].name
    {
      cities := cities + [citiesDict[solution.chromosome[c]].name];
      c := c + 1;
    }
    distance := Finite(solution.distance);
  }

  /** For a tour over the towns of the input, the names returned are the
      input's names, each once, in the order of the tour. */
  lemma NamesPermuteInput(dict: map<int, Town>, input: seq<(string, real, real)>, c: seq<int>, names: seq<string>)
    requires IsCityDict(dict, input) && IsTour(c, |input|)
    requires |names| == |c|
    requires forall k :: 0 <= k < |c| ==> c[k] in dict && names[k] == dict[c[k]].name
    ensures multiset(names) == multiset(InputNames(input))
    ensures forall k :: 0 <= k < |c| ==> 0 <= c[k] < |input| && names[k] == input[c[k]].0
  {
    TourFacts(c, |input|);
    var f := (i: int) => if 0 <= i < |input| then input[i].0 else "";
    MapSeqMultiset(f, c, Iota(|input|));
    assert names == MapSeq(f, c);
    assert InputNames(input) == MapSeq(f, Iota(|input|));
  }
}
