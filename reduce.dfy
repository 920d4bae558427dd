/** `reduce_puzzle` (Projects/1_Sudoku/solution.py, lines 144-183): apply
    `eliminate`, `only_choice` and `naked_twins` in turn until a round solves
    no new box, giving up as soon as some box has no candidate left. */
module Propagation {
  import opened Basics
  import opened Candidates
  import opened Units
  import opened Grid
  import opened EliminateRule
  import opened OnlyChoiceRule
  import opened NakedTwinsRule

  /** One round of the loop (lines 165-172): `eliminate`, then `only_choice`,
      then `naked_twins`, each applied to the result of the one before. */
  function Round(L: Layout, v: Values): (r: Values)
    ensures r.Keys == v.Keys
  {
    TwinsPruned(L, OnlyChoiceApplied(L, Eliminated(L, v)))
  }

  /** A round only deletes candidates. */
  lemma RoundShrinks(L: Layout, v: Values)
    ensures Shrinks(v, Round(L, v))
  {
    var e := Eliminated(L, v);
    var o := OnlyChoiceApplied(L, e);
    EliminatedShrinks(L, v, |L.boxes|);
    OnlyChoiceShrinks(L, e, 0);
    TwinsPrunedShrinks(L, o);
    ShrinksTrans(v, e, o);
    ShrinksTrans(v, o, Round(L, v));
  }

  /** A round that leaves no box empty keeps every solved box, so it either
      solves no new box or strictly raises the solved count. */
  lemma RoundProgress(L: Layout, v: Values)
    requires !HasEmpty(Round(L, v))
    ensures SolvedCount(v) <= SolvedCount(Round(L, v))
  {
    RoundShrinks(L, v);
    ShrinksKeepSolved(v, Round(L, v));
  }

  /** A round the loop of lines 161-183 can run: it keeps the boxes and, when
      it leaves no box empty, never lowers the solved count. */
  ghost predicate Progresses(round: Values -> Values) {
    forall u :: round(u).Keys == u.Keys && (!HasEmpty(round(u)) ==> SolvedCount(u) <= SolvedCount(round(u)))
  }

  /** The loop of lines 161-183 with `round` as its round: `None` for `False`.
      It depends on the round only through the dictionary the round returns. */
  function Reduce(round: Values -> Values, v: Values): Option<Values>
    requires Progresses(round)
    decreases |v| - SolvedCount(v)
  {
    var w := round(v);
    if HasEmpty(w) then None
    else if SolvedCount(v) == SolvedCount(w) then Some(w)
    else Reduce(round, w)
  }

  /** The round of lines 165-172 as a value. */
  function RoundOf(L: Layout): Values -> Values {
    u => Round(L, u)
  }

  lemma RoundsProgress(L: Layout)
    ensures Progresses(RoundOf(L))
  {
    forall u ensures RoundOf(L)(u).Keys == u.Keys && (!HasEmpty(RoundOf(L)(u)) ==> SolvedCount(u) <= SolvedCount(RoundOf(L)(u))) {
      if !HasEmpty(Round(L, u)) {
        RoundProgress(L, u);
      }
    }
  }

  /** What `reduce_puzzle(values)` returns: `None` for `False`. */
  function Reduced(L: Layout, v: Values): Option<Values> {
    RoundsProgress(L);
    Reduce(RoundOf(L), v)
  }

  /** Lines 165-172: one round of the three strategies, each rewriting the
      dictionary the one before left. */
  method ApplyStrategies(L: Layout, values: Values) returns (r: Values)
    requires L.WellFormed() && Fits(L, values)
    ensures r == Round(L, values)
  {
    r := Eliminate(L, values);
    UnitBoxesAreKeys(L, r);
    r := OnlyChoice(L, r);
    r := NakedTwins(L, r);
  }

  /** The loop of lines 161-183 with `round` as its round: count the solved
      boxes before and after each round, stop when the count stays the same,
      and give up as soon as a box is left with no candidate. */
  method ReduceLoop(round: Values -> Values, values: Values) returns (r: Option<Values>)
    requires Progresses(round)
    ensures r == Reduce(round, values)
  {
    var cur := values;
    var stalled := false;
    while !stalled
      invariant Reduce(round, values) == if stalled then Some(cur) else Reduce(round, cur)
      decreases if stalled then 0 else 1 + |cur| - SolvedCount(cur)
    {
      var solvedBefore := SolvedCount(cur);
      cur := round(cur);
      var solvedAfter := SolvedCount(cur);
      stalled := solvedBefore == solvedAfter;
      if HasEmpty(cur) {
        return None;
      }
    }
    return Some(cur);
  }

  /** `reduce_puzzle(values)`: the loop run with `Round`, the round that
      `ApplyStrategies` computes with the three strategy methods. */
  method ReducePuzzle(L: Layout, values: Values) returns (r: Option<Values>)
    requires L.WellFormed() && Fits(L, values)
    ensures r == Reduced(L, values)
  {
    RoundsProgress(L);
    r := ReduceLoop(RoundOf(L), values);
  }

  /** `v` after `n` rounds. */
  function Iterate(round: Values -> Values, v: Values, n: nat): Values
    decreases n
  {
    if n == 0 then v else Iterate(round, round(v), n - 1)
  }

  /** The round from `u` lets the loop go on: it leaves no box empty (line 180)
      and solves a new box (line 178). */
  ghost predicate GoesOn(round: Values -> Values, u: Values) {
    !HasEmpty(round(u)) && SolvedCount(u) < SolvedCount(round(u))
  }

  /** The first `n` rounds from `v` each let the loop go on. */
  ghost predicate Continues(round: Values -> Values, v: Values, n: nat)
    decreases n
  {
    n == 0 || (GoesOn(round, v) && Continues(round, round(v), n - 1))
  }

  /** The round from `u` gives `r`, leaves no box empty and solves no new box
      (the loop stops at line 178). */
  ghost predicate Stalls(round: Values -> Values, u: Values, r: Values) {
    r == round(u) && !HasEmpty(r) && SolvedCount(u) == SolvedCount(r)
  }

  /** A round that lets the loop go on leaves the answer to the next round. */
  lemma ReduceStep(round: Values -> Values, v: Values)
    requires Progresses(round) && GoesOn(round, v)
    ensures Reduce(round, v) == Reduce(round, round(v))
  {
  }

  /** After `n` rounds that each solved a new box, a round that empties a box
      makes the loop answer `False`. */
  lemma {:induction false} FailsAfter(round: Values -> Values, v: Values, n: nat)
    requires Progresses(round)
    requires Continues(round, v, n) && HasEmpty(round(Iterate(round, v, n)))
    ensures Reduce(round, v).None?
    decreases n
  {
    if n > 0 {
      FailsAfter(round, round(v), n - 1);
      ReduceStep(round, v);
    }
  }

  /** After `n` rounds that each solved a new box, a round that stalls makes
      the loop answer that round's result. */
  lemma {:induction false} StallsAfter(round: Values -> Values, v: Values, n: nat, r: Values)
    requires Progresses(round)
    requires Continues(round, v, n) && Stalls(round, Iterate(round, v, n), r)
    ensures Reduce(round, v) == Some(r)
    decreases n
  {
    if n > 0 {
      StallsAfter(round, round(v), n - 1, r);
      ReduceStep(round, v);
    }
  }

  /** The loop answers `False` exactly when, after some number of rounds that
      each solved a new box, the next round leaves a box empty. */
  lemma {:induction false} ReduceFails(round: Values -> Values, v: Values)
    requires Progresses(round)
    ensures Reduce(round, v).None? <==>
      exists n: nat :: Continues(round, v, n) && HasEmpty(round(Iterate(round, v, n)))
    decreases |v| - SolvedCount(v)
  {
    var w := round(v);
    if Reduce(round, v).None? {
      if HasEmpty(w) {
        assert Iterate(round, v, 0) == v;
        assert exists n: nat :: Continues(round, v, n) && HasEmpty(round(Iterate(round, v, n)));
      } else {
        ReduceFails(round, w);
        var n: nat :| Continues(round, w, n) && HasEmpty(round(Iterate(round, w, n)));
        assert Continues(round, v, n + 1) && HasEmpty(round(Iterate(round, v, n + 1)));
        assert exists n: nat :: Continues(round, v, n) && HasEmpty(round(Iterate(round, v, n)));
      }
    } else {
      forall n: nat | Continues(round, v, n) && HasEmpty(round(Iterate(round, v, n))) ensures false {
        FailsAfter(round, v, n);
      }
    }
  }

  /** The loop answers the dictionary `r` exactly when, after some number of
      rounds that each solved a new box, the next round stalls with `r`. */
  lemma {:induction false} ReduceStalled(round: Values -> Values, v: Values, r: Values)
    requires Progresses(round)
    ensures Reduce(round, v) == Some(r) <==>
      exists n: nat :: Continues(round, v, n) && Stalls(round, Iterate(round, v, n), r)
    decreases |v| - SolvedCount(v)
  {
    var w := round(v);
    if Reduce(round, v) == Some(r) {
      if SolvedCount(v) == SolvedCount(w) {
        assert Iterate(round, v, 0) == v;
        assert exists n: nat :: Continues(round, v, n) && Stalls(round, Iterate(round, v, n), r);
      } else {
        ReduceStalled(round, w, r);
        var n: nat :| Continues(round, w, n) && Stalls(round, Iterate(round, w, n), r);
        assert Continues(round, v, n + 1) && Stalls(round, Iterate(round, v, n + 1), r);
        assert exists n: nat :: Continues(round, v, n) && Stalls(round, Iterate(round, v, n), r);
      }
    } else {
      forall n: nat | Continues(round, v, n) && Stalls(round, Iterate(round, v, n), r) ensures false {
        StallsAfter(round, v, n, r);
      }
    }
  }

  /** When every round only deletes candidates, so does the whole loop, and
      its answer has no empty box. */
  lemma {:induction false} ReduceShrinks(round: Values -> Values, v: Values)
    requires Progresses(round) && forall u :: Shrinks(u, round(u))
    requires Reduce(round, v).Some?
    ensures Shrinks(v, Reduce(round, v).value) && !HasEmpty(Reduce(round, v).value)
    decreases |v| - SolvedCount(v)
  {
    var w := round(v);
    if SolvedCount(v) != SolvedCount(w) {
      ReduceShrinks(round, w);
      ShrinksTrans(v, w, Reduce(round, w).value);
    }
  }

  /** When every round keeps a filled grid that agrees with its input, the
      loop never gives up on that grid and its answer still agrees. */
  lemma {:induction false} ReduceSound(round: Values -> Values, v: Values, s: map<Box, char>)
    requires Progresses(round) && Consistent(s, v)
    requires forall u: Values {:trigger round(u)} :: u.Keys == v.Keys && Consistent(s, u) ==> Consistent(s, round(u))
    ensures Reduce(round, v).Some? && Consistent(s, Reduce(round, v).value)
    decreases |v| - SolvedCount(v)
  {
    var w := round(v);
    ConsistentNoEmpty(s, w);
    if SolvedCount(v) != SolvedCount(w) {
      ReduceSound(round, w, s);
    }
  }

  /** A reduced puzzle is the input with candidates deleted and no box empty. */
  lemma ReducedShrinks(L: Layout, v: Values)
    requires Reduced(L, v).Some?
    ensures Shrinks(v, Reduced(L, v).value) && !HasEmpty(Reduced(L, v).value)
  {
    RoundsProgress(L);
    forall u ensures Shrinks(u, RoundOf(L)(u)) {
      RoundShrinks(L, u);
    }
    ReduceShrinks(RoundOf(L), v);
  }

  /** `reduce_puzzle` answers `False` exactly when, after some number of rounds
      that each solved a new box, the next round leaves a box empty. */
  lemma ReducedFails(L: Layout, v: Values)
    ensures Reduced(L, v).None? <==>
      exists n: nat :: Continues(RoundOf(L), v, n) && HasEmpty(Round(L, Iterate(RoundOf(L), v, n)))
  {
    RoundsProgress(L);
    ReduceFails(RoundOf(L), v);
  }

  /** `reduce_puzzle` answers the dictionary `r` exactly when, after some number
      of rounds that each solved a new box, the next round gives `r`, leaves no
      box empty and solves no new box. */
  lemma ReducedStalled(L: Layout, v: Values, r: Values)
    ensures Reduced(L, v) == Some(r) <==>
      exists n: nat :: Continues(RoundOf(L), v, n) && Stalls(RoundOf(L), Iterate(RoundOf(L), v, n), r)
  {
    RoundsProgress(L);
    ReduceStalled(RoundOf(L), v, r);
  }

  /** A round keeps every solution that was still possible. */
  lemma RoundSound(L: Layout, v: Values, s: map<Box, char>)
    requires L.WellFormed() && Fits(L, v) && IsSolution(L, s) && Consistent(s, v)
    ensures Consistent(s, Round(L, v))
  {
    var e := Eliminated(L, v);
    var o := OnlyChoiceApplied(L, e);
    EliminatedSound(L, v, |L.boxes|, s);
    OnlyChoiceSound(L, e, 0, s);
    TwinsPrunedSound(L, o, s);
  }

  /** `reduce_puzzle` never gives up on a solvable puzzle: when a solution
      agrees with the candidates, the reduction succeeds and still agrees. */
  lemma ReducedSound(L: Layout, v: Values, s: map<Box, char>)
    requires L.WellFormed() && Fits(L, v) && IsSolution(L, s) && Consistent(s, v)
    ensures Reduced(L, v).Some? && Consistent(s, Reduced(L, v).value)
  {
    RoundsProgress(L);
    forall u: Values | u.Keys == v.Keys && Consistent(s, u) ensures Consistent(s, RoundOf(L)(u)) {
      RoundSound(L, u, s);
    }
    ReduceSound(RoundOf(L), v, s);
  }
}
