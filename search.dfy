/** `search` and `solve` (Projects/1_Sudoku/solution.py, lines 185-253):
    depth-first search that reduces the puzzle, branches on the unsolved box
    with the fewest candidates and tries its candidates in order. */
module Backtracking {
  import opened Basics
  import opened Candidates
  import opened Units
  import opened Grid
  import opened Propagation

  /** What `search` relies on: the 9x9 layout (it compares the solved count
      with 81 and falls back to the box 'A1') and candidate strings shorter
      than the sentinel 1000 of line 218, so that the box it branches on is
      always one it can shrink. */
  ghost predicate SearchReady(L: Layout, v: Values) {
    && L.WellFormed() && Fits(L, v)
    && |L.boxes| == 81 && "A1" in L.peers
    && forall b :: b in v ==> |v[b]| < 1000
  }

  /** A box the loop of lines 217-224 may pick: unsolved and under the sentinel. */
  ghost predicate Branchable(v: Values, b: Box) {
    b in v && 1 < |v[b]| < 1000
  }

  /** The box at index `m` has the fewest candidates among the branchable
      boxes, and strictly fewer than every branchable box before it. */
  ghost predicate FirstFewest(L: Layout, v: Values, m: int, n: int)
    requires 0 <= m < |L.boxes| && n <= |L.boxes|
  {
    && Branchable(v, L.boxes[m])
    && forall j :: 0 <= j < n && Branchable(v, L.boxes[j]) ==>
      |v[L.boxes[m]]| <= |v[L.boxes[j]]| && (j < m ==> |v[L.boxes[m]]| < |v[L.boxes[j]]|)
  }

  /** Lines 217-222 from the `i`-th box on, with `best`/`least` standing for
      `k_fewest`/`min_possibility`. */
  function FewestFrom(L: Layout, v: Values, i: nat, best: Box, least: int): Box
    decreases |L.boxes| - i
  {
    if i >= |L.boxes| then best
    else
      var b := L.boxes[i];
      var p := if b in v then |v[b]| else 0;
      if p > 1 && p < least then FewestFrom(L, v, i + 1, b, p)
      else FewestFrom(L, v, i + 1, best, least)
  }

  /** The box `search` branches on (lines 217-224). */
  function FewestBox(L: Layout, v: Values): Box {
    FewestFrom(L, v, 0, "A1", 1000)
  }

  /** The state of lines 217-224 after the first `i` boxes. */
  ghost predicate FewestSoFar(L: Layout, v: Values, i: nat, best: Box, least: int)
    requires i <= |L.boxes|
  {
    || (best == "A1" && least == 1000 && forall j :: 0 <= j < i ==> !Branchable(v, L.boxes[j]))
    || (exists m :: 0 <= m < i && L.boxes[m] == best && Branchable(v, best)
          && least == |v[best]| && FirstFewest(L, v, m, i))
  }

  lemma FewestStep(L: Layout, v: Values, i: nat, best: Box, least: int)
    requires i < |L.boxes| && FewestSoFar(L, v, i, best, least)
    ensures var b := L.boxes[i];
            var p := if b in v then |v[b]| else 0;
            if p > 1 && p < least then FewestSoFar(L, v, i + 1, b, p)
            else FewestSoFar(L, v, i + 1, best, least)
  {
    var b := L.boxes[i];
    var p := if b in v then |v[b]| else 0;
    if p > 1 && p < least {
      assert FirstFewest(L, v, i, i + 1);
    } else if least == 1000 && best == "A1" && forall j :: 0 <= j < i ==> !Branchable(v, L.boxes[j]) {
      assert !Branchable(v, b);
    } else {
      var m :| 0 <= m < i && L.boxes[m] == best && Branchable(v, best)
        && least == |v[best]| && FirstFewest(L, v, m, i);
      assert FirstFewest(L, v, m, i + 1);
    }
  }

  /** `k` is 'A1' with no branchable box, or the first branchable box with the
      fewest candidates. */
  ghost predicate FewestAnswer(L: Layout, v: Values, k: Box) {
    || (k == "A1" && forall j :: 0 <= j < |L.boxes| ==> !Branchable(v, L.boxes[j]))
    || (exists m :: 0 <= m < |L.boxes| && L.boxes[m] == k && FirstFewest(L, v, m, |L.boxes|))
  }

  lemma {:induction false} FewestFromChoice(L: Layout, v: Values, i: nat, best: Box, least: int)
    requires i <= |L.boxes| && FewestSoFar(L, v, i, best, least)
    ensures FewestAnswer(L, v, FewestFrom(L, v, i, best, least))
    decreases |L.boxes| - i
  {
    if i == |L.boxes| {
      if !(best == "A1" && least == 1000 && forall j :: 0 <= j < i ==> !Branchable(v, L.boxes[j])) {
        var m :| 0 <= m < i && L.boxes[m] == best && Branchable(v, best)
          && least == |v[best]| && FirstFewest(L, v, m, i);
      }
    } else {
      var b := L.boxes[i];
      var p := if b in v then |v[b]| else 0;
      FewestStep(L, v, i, best, least);
      if p > 1 && p < least {
        FewestFromChoice(L, v, i + 1, b, p);
      } else {
        FewestFromChoice(L, v, i + 1, best, least);
      }
    }
  }

  /** The loop of lines 217-224 picks 'A1' when no box is branchable, and
      otherwise the first branchable box with the fewest candidates. */
  lemma FewestChoice(L: Layout, v: Values)
    ensures (forall j :: 0 <= j < |L.boxes| ==> !Branchable(v, L.boxes[j])) ==> FewestBox(L, v) == "A1"
    ensures (exists j :: 0 <= j < |L.boxes| && Branchable(v, L.boxes[j])) ==>
      exists m :: 0 <= m < |L.boxes| && L.boxes[m] == FewestBox(L, v)
        && Branchable(v, FewestBox(L, v)) && FirstFewest(L, v, m, |L.boxes|)
  {
    FewestFromChoice(L, v, 0, "A1", 1000);
  }

  /** Lines 217-224. */
  method ChooseFewest(L: Layout, values: Values) returns (kFewest: Box)
    requires L.WellFormed() && Fits(L, values)
    ensures kFewest == FewestBox(L, values)
  {
    kFewest := "A1";
    var minPossibility := 1000;
    for i := 0 to |L.boxes|
      invariant FewestFrom(L, values, i, kFewest, minPossibility) == FewestBox(L, values)
    {
      var k := L.boxes[i];
      PeersAreBoxes(L, i);
      var possibility := |values[k]|;
      if possibility > 1 && possibility < minPossibility {
        minPossibility := possibility;
        kFewest := k;
      }
    }
  }

  /** After a successful reduction the chosen box is a box, and it either has
      several candidates or the whole grid is solved. */
  lemma FewestBranches(L: Layout, R: Values)
    requires L.WellFormed() && Fits(L, R) && "A1" in L.peers && !HasEmpty(R)
    requires forall b :: b in R ==> |R[b]| < 1000
    ensures FewestBox(L, R) in R
    ensures |R[FewestBox(L, R)]| > 1 || SolvedCount(R) == |L.boxes|
  {
    FewestChoice(L, R);
    if forall j :: 0 <= j < |L.boxes| ==> !Branchable(R, L.boxes[j]) {
      BoxesAreKeys(L);
      assert Solved(R) == R.Keys by {
        forall b | b in R ensures |R[b]| == 1 {
          var j :| 0 <= j < |L.boxes| && L.boxes[j] == b;
          assert !Branchable(R, L.boxes[j]);
        }
      }
      SizeOfFit(L, R);
    }
  }

  /** A dictionary that fits the layout has one entry per box. */
  lemma SizeOfFit(L: Layout, v: Values)
    requires L.WellFormed() && Fits(L, v)
    ensures |v| == |L.boxes|
  {
    assert |v| == |v.Keys| == |L.peers.Keys| == |L.peers|;
  }

  /** Every box single-valued, read off the solved count. */
  lemma AllSolved(L: Layout, v: Values)
    requires L.WellFormed() && Fits(L, v) && SolvedCount(v) == |L.boxes|
    ensures forall b :: b in v ==> |v[b]| == 1
  {
    SizeOfFit(L, v);
    assert Solved(v) <= v.Keys;
    SubsetSameSize(Solved(v), v.Keys);
  }

  /** The sum of the candidate counts of the boxes of `bs`. */
  function TotalLength(bs: seq<Box>, v: Values): nat {
    if bs == [] then 0 else (if bs[0] in v then |v[bs[0]]| else 0) + TotalLength(bs[1..], v)
  }

  /** Fewer candidates box by box make fewer in total, strictly so when one
      listed box lost some. */
  lemma {:induction false} TotalLengthShrinks(bs: seq<Box>, v: Values, w: Values, k: Box)
    requires w.Keys == v.Keys && forall b :: b in v ==> |w[b]| <= |v[b]|
    ensures TotalLength(bs, w) <= TotalLength(bs, v)
    ensures k in bs && k in v && |w[k]| < |v[k]| ==> TotalLength(bs, w) < TotalLength(bs, v)
  {
    if bs != [] {
      TotalLengthShrinks(bs[1..], v, w, k);
      assert k in bs ==> k == bs[0] || k in bs[1..];
    }
  }

  /** The measure the recursion of `search` decreases: the candidates left, and
      one more while the grid is unsolved. */
  function Measure(L: Layout, v: Values): nat {
    TotalLength(L.boxes, v) + if SolvedCount(v) == 81 then 0 else 1
  }

  /** What holds where lines 228-231 build a child: `v` is the unsolved input,
      `R` its reduction and `k` the box chosen in `R`. */
  ghost predicate ChildReady(L: Layout, v: Values, R: Values, k: Box) {
    && SearchReady(L, v) && SolvedCount(v) != 81
    && Shrinks(v, R) && !HasEmpty(R)
    && k in R && (|R[k]| > 1 || SolvedCount(R) == 81)
  }

  /** A child `R[k := [c]]` is again a puzzle `search` accepts, and it is
      smaller than the parent. */
  lemma ChildSmaller(L: Layout, v: Values, R: Values, k: Box, c: char)
    requires ChildReady(L, v, R, k) && c in R[k]
    ensures SearchReady(L, R[k := [c]]) && Measure(L, R[k := [c]]) < Measure(L, v)
  {
    ShrinksLengths(v, R);
    assert SearchReady(L, R);
    SettingReady(L, R, k, c);
    BoxesAreKeys(L);
    ChildMeasure(L.boxes, v, R, k, c);
  }

  /** Setting a box to one of its candidates keeps a puzzle `search` accepts. */
  lemma SettingReady(L: Layout, R: Values, k: Box, c: char)
    requires SearchReady(L, R) && k in R
    ensures SearchReady(L, R[k := [c]])
  {
  }

  /** The measure drops from parent to child: the child has fewer candidates
      than the parent, or it is the reduced grid itself and that is solved. */
  lemma ChildMeasure(boxes: seq<Box>, v: Values, R: Values, k: Box, c: char)
    requires R.Keys == v.Keys && forall b :: b in v ==> |R[b]| <= |v[b]|
    requires SolvedCount(v) != 81 && !HasEmpty(R) && k in boxes && k in R && c in R[k]
    requires |R[k]| > 1 || SolvedCount(R) == 81
    ensures TotalLength(boxes, R[k := [c]]) + (if SolvedCount(R[k := [c]]) == 81 then 0 else 1)
      < TotalLength(boxes, v) + (if SolvedCount(v) == 81 then 0 else 1)
  {
    var child := R[k := [c]];
    TotalLengthShrinks(boxes, v, R, k);
    if |R[k]| > 1 {
      TotalLengthShrinks(boxes, R, child, k);
    } else {
      assert R[k] != [];
      SingleCandidate(R[k], c);
      assert child == R;
    }
  }

  /** A one-character string holding `c` is `[c]`. */
  lemma SingleCandidate(s: string, c: char)
    requires |s| <= 1 && c in s
    ensures s == [c]
  {
  }

  /** The dictionary `search(values)` returns; `None` for both `False` and the
      `None` that falls off the end of the loop at line 233. */
  function Searched(L: Layout, v: Values): Option<Values>
    requires SearchReady(L, v)
    decreases Measure(L, v), 1
  {
    if SolvedCount(v) == 81 then Some(v)
    else match Reduced(L, v)
      case None => None
      case Some(R) =>
        ReducedShrinks(L, v);
        ShrinksLengths(v, R);
        FewestBranches(L, R);
        TryCandidates(L, v, R, FewestBox(L, R), 0)
  }

  /** Lines 226-233 from the `i`-th candidate of the chosen box `k` on: the
      first child whose search succeeds. */
  function TryCandidates(L: Layout, v: Values, R: Values, k: Box, i: nat): Option<Values>
    requires ChildReady(L, v, R, k)
    decreases Measure(L, v), 0, |R[k]| - i, 1
  {
    if i >= |R[k]| then None
    else
      var attempt := ChildResult(L, v, R, k, i);
      if attempt.Some? then attempt else TryCandidates(L, v, R, k, i + 1)
  }

  /** `search(values)`. */
  method Search(L: Layout, values: Values) returns (r: Option<Values>)
    requires SearchReady(L, values)
    ensures r == Searched(L, values)
    decreases Measure(L, values), 1
  {
    var solvedValues := SolvedCount(values);
    if solvedValues == 81 {
      return Some(values);
    }
    var reducedValues := ReducePuzzle(L, values);
    if reducedValues.None? {
      return None;
    }
    var R := reducedValues.value;
    ReducedShrinks(L, values);
    ShrinksLengths(values, R);
    FewestBranches(L, R);
    var kFewest := ChooseFewest(L, R);
    r := TryEach(L, values, R, kFewest);
  }

  /** Lines 226-233: search each child in candidate order and return the first
      answer. */
  method TryEach(L: Layout, values: Values, R: Values, kFewest: Box) returns (r: Option<Values>)
    requires ChildReady(L, values, R, kFewest)
    ensures r == TryCandidates(L, values, R, kFewest, 0)
    decreases Measure(L, values), 0, |R[kFewest]| + 1
  {
    for i := 0 to |R[kFewest]|
      invariant TryCandidates(L, values, R, kFewest, i) == TryCandidates(L, values, R, kFewest, 0)
    {
      var attempt := SearchChild(L, values, R, kFewest, i);
      if attempt.Some? {
        return attempt;
      }
    }
    return None;
  }

  /** Lines 229-231: copy the reduced dictionary, set the chosen box to its
      `i`-th candidate and search the copy. */
  method SearchChild(L: Layout, values: Values, R: Values, kFewest: Box, i: nat) returns (attempt: Option<Values>)
    requires ChildReady(L, values, R, kFewest) && i < |R[kFewest]|
    ensures attempt == ChildResult(L, values, R, kFewest, i)
    decreases Measure(L, values), 0, |R[kFewest]| - i
  {
    var newValues := R[kFewest := [R[kFewest][i]]];
    ChildSmaller(L, values, R, kFewest, R[kFewest][i]);
    attempt := Search(L, newValues);
  }

  /** Setting a box to one of its candidates only deletes candidates. */
  lemma ChildShrinks(R: Values, k: Box, c: char)
    requires k in R && c in R[k]
    ensures Shrinks(R, R[k := [c]])
  {
    forall b | b in R ensures Subseq(R[k := [c]][b], R[b]) {
      if b == k {
        SubseqSingle(c, R[k]);
      } else {
        SubseqRefl(R[b]);
      }
    }
  }

  /** What `search` returns is the input with candidates deleted until every
      box holds exactly one digit. */
  lemma {:induction false} SearchedSolved(L: Layout, v: Values)
    requires SearchReady(L, v) && Searched(L, v).Some?
    ensures Shrinks(v, Searched(L, v).value)
    ensures forall b :: b in Searched(L, v).value ==> |Searched(L, v).value[b]| == 1
    decreases Measure(L, v), 1
  {
    if SolvedCount(v) == 81 {
      ShrinksRefl(v);
      AllSolved(L, v);
    } else {
      var R := Reduced(L, v).value;
      ReducedShrinks(L, v);
      ShrinksLengths(v, R);
      FewestBranches(L, R);
      TriedSolved(L, v, R, FewestBox(L, R), 0);
    }
  }

  lemma {:induction false} TriedSolved(L: Layout, v: Values, R: Values, k: Box, i: nat)
    requires ChildReady(L, v, R, k) && TryCandidates(L, v, R, k, i).Some?
    ensures Shrinks(v, TryCandidates(L, v, R, k, i).value)
    ensures forall b :: b in TryCandidates(L, v, R, k, i).value ==> |TryCandidates(L, v, R, k, i).value[b]| == 1
    decreases Measure(L, v), 0, |R[k]| - i
  {
    var child := R[k := [R[k][i]]];
    ChildSmaller(L, v, R, k, R[k][i]);
    if Searched(L, child).Some? {
      SearchedSolved(L, child);
      ChildShrinks(R, k, R[k][i]);
      ShrinksTrans(v, R, child);
      ShrinksTrans(v, child, Searched(L, child).value);
    } else {
      TriedSolved(L, v, R, k, i + 1);
    }
  }

  /** `search` finds an answer whenever a solution agrees with the input's
      candidates: reduction keeps that solution, and the branch that sets the
      chosen box to the solution's digit is tried. */
  lemma {:induction false} SearchComplete(L: Layout, v: Values, s: map<Box, char>)
    requires SearchReady(L, v) && IsSolution(L, s) && Consistent(s, v)
    ensures Searched(L, v).Some?
    decreases Measure(L, v), 1
  {
    if SolvedCount(v) != 81 {
      ReducedSound(L, v, s);
      var R := Reduced(L, v).value;
      ReducedShrinks(L, v);
      ShrinksLengths(v, R);
      FewestBranches(L, R);
      var k := FewestBox(L, R);
      var j :| 0 <= j < |R[k]| && R[k][j] == s[k];
      ChildComplete(L, v, R, k, j, s);
      TriedSome(L, v, R, k, 0, j);
    }
  }

  /** The child that sets box `k` to the solution's digit succeeds. */
  lemma {:induction false} ChildComplete(L: Layout, v: Values, R: Values, k: Box, j: nat, s: map<Box, char>)
    requires ChildReady(L, v, R, k) && IsSolution(L, s) && Consistent(s, R)
    requires j < |R[k]| && R[k][j] == s[k]
    ensures ChildResult(L, v, R, k, j).Some?
    decreases Measure(L, v), 0
  {
    ChildSmaller(L, v, R, k, s[k]);
    SettingConsistent(s, R, k);
    SearchComplete(L, R[k := [s[k]]], s);
  }

  /** Setting a box to the solution's digit keeps the solution. */
  lemma SettingConsistent(s: map<Box, char>, R: Values, k: Box)
    requires Consistent(s, R) && k in R
    ensures Consistent(s, R[k := [s[k]]])
  {
  }

  /** The candidate loop succeeds when some child from the `i`-th on succeeds. */
  lemma {:induction false} TriedSome(L: Layout, v: Values, R: Values, k: Box, i: nat, j: nat)
    requires ChildReady(L, v, R, k) && i <= j < |R[k]| && ChildResult(L, v, R, k, j).Some?
    ensures TryCandidates(L, v, R, k, i).Some?
    decreases j - i
  {
    TryStep(L, v, R, k, i);
    if i < j && ChildResult(L, v, R, k, i).None? {
      TriedSome(L, v, R, k, i + 1, j);
    }
  }

  /** One turn of the candidate loop: the `i`-th child's answer if it has one,
      otherwise the loop from the next candidate on. */
  lemma TryStep(L: Layout, v: Values, R: Values, k: Box, i: nat)
    requires ChildReady(L, v, R, k) && i < |R[k]|
    ensures TryCandidates(L, v, R, k, i) ==
      if ChildResult(L, v, R, k, i).Some? then ChildResult(L, v, R, k, i) else TryCandidates(L, v, R, k, i + 1)
  {
  }

  /** The candidate loop returns the answer of the first child, in candidate
      order, whose search succeeds. */
  lemma {:induction false} TriedFirst(L: Layout, v: Values, R: Values, k: Box, i: nat, j: nat)
    requires ChildReady(L, v, R, k) && i <= j < |R[k]| && ChildResult(L, v, R, k, j).Some?
    requires FailBetween(L, v, R, k, i, j)
    ensures TryCandidates(L, v, R, k, i) == ChildResult(L, v, R, k, j)
    decreases j - i
  {
    if i < j {
      TriedFirst(L, v, R, k, i + 1, j);
      TryStep(L, v, R, k, i);
    }
  }

  /** Every child from the `i`-th candidate up to, not including, the `j`-th fails. */
  ghost predicate FailBetween(L: Layout, v: Values, R: Values, k: Box, i: nat, j: nat)
    requires ChildReady(L, v, R, k) && j <= |R[k]|
    decreases j - i
  {
    i >= j || (ChildResult(L, v, R, k, i).None? && FailBetween(L, v, R, k, i + 1, j))
  }

  /** The candidate loop fails when every child from the `i`-th on fails. */
  lemma {:induction false} TriedNone(L: Layout, v: Values, R: Values, k: Box, i: nat)
    requires ChildReady(L, v, R, k) && i <= |R[k]|
    requires forall t :: i <= t < |R[k]| ==> ChildResult(L, v, R, k, t).None?
    ensures TryCandidates(L, v, R, k, i).None?
    decreases |R[k]| - i
  {
    if i < |R[k]| {
      TriedNone(L, v, R, k, i + 1);
    }
  }

  /** A successful candidate loop answers what one of its children answered. */
  lemma {:induction false} TriedWitness(L: Layout, v: Values, R: Values, k: Box, i: nat)
    requires ChildReady(L, v, R, k) && TryCandidates(L, v, R, k, i).Some?
    ensures exists j :: i <= j < |R[k]| && TryCandidates(L, v, R, k, i) == ChildResult(L, v, R, k, j)
    decreases |R[k]| - i
  {
    if ChildResult(L, v, R, k, i).None? {
      TriedWitness(L, v, R, k, i + 1);
    } else {
      assert TryCandidates(L, v, R, k, i) == ChildResult(L, v, R, k, i);
    }
  }

  /** What `search` answers (lines 206-233): a solved input as it is; `False`
      when the reduction fails; otherwise the answer for the reduced
      dictionary with the chosen box set to one of its own candidates. */
  lemma SearchedShape(L: Layout, v: Values)
    requires SearchReady(L, v)
    ensures SolvedCount(v) == 81 ==> Searched(L, v) == Some(v)
    ensures SolvedCount(v) != 81 && Reduced(L, v).None? ==> Searched(L, v).None?
    ensures SolvedCount(v) != 81 && Searched(L, v).Some? ==>
      && Reduced(L, v).Some?
      && var R := Reduced(L, v).value;
         var k := FewestBox(L, R);
         && k in R
         && exists c :: c in R[k] && SearchReady(L, R[k := [c]]) && Searched(L, v) == Searched(L, R[k := [c]])
  {
    if SolvedCount(v) != 81 && Searched(L, v).Some? {
      var R := Reduced(L, v).value;
      ReducedShrinks(L, v);
      ShrinksLengths(v, R);
      FewestBranches(L, R);
      var k := FewestBox(L, R);
      TriedWitness(L, v, R, k, 0);
      var j :| 0 <= j < |R[k]| && TryCandidates(L, v, R, k, 0) == ChildResult(L, v, R, k, j);
      var c := R[k][j];
      ChildSmaller(L, v, R, k, c);
      assert c in R[k] && Searched(L, v) == Searched(L, R[k := [c]]);
    }
  }

  /** The search of the child that sets box `k` to its `j`-th candidate. */
  function ChildResult(L: Layout, v: Values, R: Values, k: Box, j: nat): Option<Values>
    requires ChildReady(L, v, R, k) && j < |R[k]|
    decreases Measure(L, v), 0, |R[k]| - j, 0
  {
    ChildSmaller(L, v, R, k, R[k][j]);
    Searched(L, R[k := [R[k][j]]])
  }

  /** `solve(grid)` on the dictionary `grid2values(grid)`: when it returns a
      grid, every box holds one of its given candidates; when a solution
      agrees with the given candidates, it returns a grid. */
  method Solve(L: Layout, values: Values) returns (r: Option<Values>)
    requires SearchReady(L, values)
    ensures r.Some? ==> Shrinks(values, r.value) && forall b :: b in r.value ==> |r.value[b]| == 1
    ensures forall s :: IsSolution(L, s) && Consistent(s, values) ==> r.Some?
  {
    r := Search(L, values);
    if r.Some? {
      SearchedSolved(L, values);
    }
    forall s | IsSolution(L, s) && Consistent(s, values) ensures r.Some? {
      SearchComplete(L, values, s);
    }
  }
}
