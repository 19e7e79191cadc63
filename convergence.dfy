/** The stopping rule of TS_GUI.display_text_only (and of TS_GUI.display,
    which shares it): generations are run until DELTA_GENERATION of them in
    a row have left the length of the incumbent unchanged. The lengths that
    successive calls of Problem.generate return are the input. */
module Convergence {
  import opened Numerics
  import opened Problems

  /** Problem.DELTA_GENERATION. */
  const DELTA_GENERATION: nat := 50

  /** The loop's variables: the generation about to run, the last generation
      that changed the incumbent's length, and the length last seen. */
  datatype Counter = Counter(i: nat, ithBest: nat, last: Length)

  /** The counter before the first generation. */
  function Start(initial: Length): Counter {
    Counter(1, 0, initial)
  }

  /** The loop condition (when no time limit is given). */
  predicate Running(c: Counter) {
    c.i - c.ithBest <= DELTA_GENERATION
  }

  /** equal_double on Python floats as written: inf - inf is nan and
      inf - x is infinite, and neither is below the tolerance. */
  function EqualLengthsAsWritten(a: Length, b: Length): bool {
    a.Finite? && b.Finite? && EqualDouble(a.value, b.value)
  }

  /** The comparison the rule needs: an incumbent that is still absent has
      not changed either. */
  function SameLength(a: Length, b: Length): (r: bool)
    ensures a == b ==> r
    ensures r ==> a.Infinity? == b.Infinity?
    ensures a.Finite? && b.Finite? ==> (r <==> EqualDouble(a.value, b.value))
  {
    if a.Infinity? && b.Infinity? then true else EqualLengthsAsWritten(a, b)
  }

  /** The comparison as written and the corrected one disagree exactly when
      both lengths are the float('inf') sentinel. */
  lemma AsWrittenDiffersAtInfinity(a: Length, b: Length)
    ensures SameLength(a, b) != EqualLengthsAsWritten(a, b) <==> a.Infinity? && b.Infinity?
  {
  }

  /** One generation: a length that differs from the last one seen resets
      the count; the generation number advances either way. */
  function Step(c: Counter, d: Length, same: (Length, Length) -> bool): Counter {
    if !same(c.last, d) then Counter(c.i + 1, c.i, d) else Counter(c.i + 1, c.ithBest, c.last)
  }

  /** The counter after the generations that returned ls. */
  function Steps(c: Counter, ls: seq<Length>, same: (Length, Length) -> bool): Counter {
    if ls == [] then c else Step(Steps(c, ls[..|ls| - 1], same), ls[|ls| - 1], same)
  }

  /** After k generations from the start, generation k + 1 is next and the
      last change happened at one of the first k. */
  lemma {:induction false} StepsShape(initial: Length, ls: seq<Length>, same: (Length, Length) -> bool)
    ensures Steps(Start(initial), ls, same).i == |ls| + 1
    ensures Steps(Start(initial), ls, same).ithBest <= |ls|
  {
    if ls != [] {
      StepsShape(initial, ls[..|ls| - 1], same);
    }
  }

  /** No generation after the last change changed the length seen. */
  lemma {:induction false} QuietTail(initial: Length, ls: seq<Length>, same: (Length, Length) -> bool)
    ensures var c := Steps(Start(initial), ls, same);
      c.ithBest <= |ls| &&
      forall k :: c.ithBest <= k < |ls| ==> same(Steps(Start(initial), ls[..k], same).last, ls[k])
  {
    StepsShape(initial, ls, same);
    if ls != [] {
      var p := ls[..|ls| - 1];
      QuietTail(initial, p, same);
      StepsShape(initial, p, same);
      var c := Steps(Start(initial), ls, same);
      forall k | c.ithBest <= k < |ls|
        ensures same(Steps(Start(initial), ls[..k], same).last, ls[k])
      {
        if k < |p| {
          assert ls[..k] == p[..k] && ls[k] == p[k];
        } else {
          assert ls[..k] == p;
        }
      }
    }
  }

  /** When the loop stops after running every generation of ls, exactly
      DELTA_GENERATION generations have run since the last change. */
  lemma StopsAfterDelta(initial: Length, ls: seq<Length>, same: (Length, Length) -> bool)
    requires forall k :: 0 <= k < |ls| ==> Running(Steps(Start(initial), ls[..k], same))
    requires !Running(Steps(Start(initial), ls, same))
    ensures |ls| == Steps(Start(initial), ls, same).ithBest + DELTA_GENERATION
  {
    StepsShape(initial, ls, same);
    var p := ls[..|ls| - 1];
    StepsShape(initial, p, same);
    assert Running(Steps(Start(initial), ls[..|ls| - 1], same));
  }

  /** As written, an incumbent that never exists (no towns) resets the
      count on every generation, so the loop never stops. */
  lemma AsWrittenNeverStops(n: nat)
    ensures Running(Steps(Start(Infinity), seq(n, k => Infinity), EqualLengthsAsWritten))
  {
    var ls: seq<Length> := seq(n, k => Infinity);
    if n > 0 {
      StepsShape(Infinity, ls, EqualLengthsAsWritten);
      assert !EqualLengthsAsWritten(Steps(Start(Infinity), ls[..n - 1], EqualLengthsAsWritten).last, ls[n - 1]);
    }
  }

  /** With SameLength, a length that never changes, infinite or not, stops
      the loop after DELTA_GENERATION generations. */
  lemma ConstantStops(initial: Length, n: nat)
    ensures var ls := seq(n, k => initial);
      Running(Steps(Start(initial), ls, SameLength)) <==> n < DELTA_GENERATION
  {
    var ls: seq<Length> := seq(n, k => initial);
    QuietTail(initial, ls, SameLength);
    StepsShape(initial, ls, SameLength);
    ConstantQuiet(initial, n);
  }

  /** A constant sequence never changes the length seen. */
  lemma {:induction false} ConstantQuiet(initial: Length, n: nat)
    ensures var c := Steps(Start(initial), seq(n, k => initial), SameLength);
      c.ithBest == 0 && c.last == initial
  {
    if n > 0 {
      var ls: seq<Length> := seq(n, k => initial);
      assert ls[..n - 1] == seq(n - 1, k => initial);
      ConstantQuiet(initial, n - 1);
    }
  }

  /** A replaced incumbent is strictly shorter beyond the tolerance, so the
      counter sees a change exactly when generate replaced the incumbent. */
  lemma ReplacementIsChange(before: Length, after: Length)
    requires after == before || (after.Finite? && Improves(after.value, before))
    ensures SameLength(before, after) <==> after == before
  {
  }

  /** The loop of display_text_only with no time limit, over the lengths
      returned by successive generations: it runs while the rule allows and
      lengths remain. `same` is the comparison of lengths: with
      EqualLengthsAsWritten this is the loop as written, with SameLength the
      corrected one. */
  method Converge(initial: Length, lengths: seq<Length>, same: (Length, Length) -> bool) returns (used: nat, c: Counter)
    ensures used <= |lengths| && c == Steps(Start(initial), lengths[..used], same)
    ensures used < |lengths| ==> !Running(c)
    ensures forall k :: 0 <= k < used ==> Running(Steps(Start(initial), lengths[..k], same))
  {
    c := Start(initial);
    used := 0;
    while used < |lengths| && Running(c)
      invariant used <= |lengths| && c == Steps(Start(initial), lengths[..used], same)
      invariant forall k :: 0 <= k < used ==> Running(Steps(Start(initial), lengths[..k], same))
    {
      c := Step(c, lengths[used], same);
      assert lengths[..used + 1][..used] == lengths[..used];
      used := used + 1;
    }
  }

  /** As written, a run with no towns uses every length it is given: the
      loop has no end of its own. */
  method ConvergeNoTownsAsWritten(n: nat) returns (used: nat)
    ensures used == n
  {
    var ls: seq<Length> := seq(n, _ => Infinity);
    var c;
    used, c := Converge(Infinity, ls, EqualLengthsAsWritten);
    assert ls[..used] == seq(used, _ => Infinity);
    AsWrittenNeverStops(used);
  }

  /** With the corrected comparison, a run with no towns stops after
      DELTA_GENERATION generations. */
  method ConvergeNoTownsCorrected(n: nat) returns (used: nat)
    ensures used == if n < DELTA_GENERATION then n else DELTA_GENERATION
  {
    var ls: seq<Length> := seq(n, _ => Infinity);
    var c;
    used, c := Converge(Infinity, ls, SameLength);
    assert ls[..used] == seq(used, _ => Infinity);
    ConstantStops(Infinity, used);
    if used > 0 {
      assert ls[..used - 1] == seq(used - 1, _ => Infinity);
      ConstantStops(Infinity, used - 1);
    }
  }
}
