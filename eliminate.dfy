/** `eliminate` (Projects/1_Sudoku/solution.py, lines 71-97): every box with a
    single candidate deletes that digit from each peer that still has more
    than one candidate. Boxes are visited in dictionary order and each visit
    sees the entries as earlier visits left them. */
module EliminateRule {
  import opened Basics
  import opened Candidates
  import opened Units
  import opened Grid

  /** Lines 92-96 for one solved box: delete `d` from each box of `targets`
      that still has more than one candidate. */
  function PrunePeers(v: Values, targets: set<Box>, d: char): Values {
    map b | b in v :: if b in targets && |v[b]| > 1 then Without(v[b], d) else v[b]
  }

  /** One turn of the outer loop (line 89), at `box`. In a well-formed layout
      every visited box is a key of both maps; any other box is passed over. */
  function EliminateAt(L: Layout, v: Values, box: Box): Values {
    if box in v && box in L.peers && |v[box]| == 1 then PrunePeers(v, L.peers[box], v[box][0]) else v
  }

  /** The dictionary after the outer loop has visited the first `n` boxes. */
  function EliminatedUpTo(L: Layout, v: Values, n: nat): (r: Values)
    requires n <= |L.boxes|
    ensures r.Keys == v.Keys
  {
    if n == 0 then v
    else EliminateAt(L, EliminatedUpTo(L, v, n - 1), L.boxes[n - 1])
  }

  /** The dictionary `eliminate` returns. */
  function Eliminated(L: Layout, v: Values): (r: Values)
    ensures r.Keys == v.Keys
  {
    EliminatedUpTo(L, v, |L.boxes|)
  }

  /** `eliminate(values)`. The caller's dictionary is rewritten in place by the
      source; here the rewritten dictionary is returned. */
  method Eliminate(L: Layout, values: Values) returns (r: Values)
    requires L.WellFormed() && Fits(L, values)
    ensures r == Eliminated(L, values)
  {
    r := values;
    for i := 0 to |L.boxes|
      invariant r == EliminatedUpTo(L, values, i)
      invariant r.Keys == values.Keys
    {
      var box := L.boxes[i];
      PeersAreBoxes(L, i);
      var value := r[box];
      if |value| == 1 {
        r := PrunePeersOf(r, L.peers[box], value[0]);
      }
    }
  }

  /** Lines 92-96: the boxes of `targets` (the peers of a solved box), in
      whatever order the set yields them, lose the digit `d` when they have more
      than one candidate. */
  method PrunePeersOf(v: Values, targets: set<Box>, d: char) returns (r: Values)
    requires targets <= v.Keys
    ensures r == PrunePeers(v, targets, d)
    ensures r.Keys == v.Keys
  {
    r := v;
    var rest := targets;
    while rest != {}
      invariant rest <= targets
      invariant r.Keys == v.Keys
      invariant forall b :: b in v ==>
        r[b] == if b in targets - rest && |v[b]| > 1 then Without(v[b], d) else v[b]
      decreases rest
    {
      var peer :| peer in rest;
      if |r[peer]| > 1 {
        r := r[peer := Without(r[peer], d)];
      }
      rest := rest - {peer};
    }
  }

  /** One pruning turn only deletes digits. */
  lemma PruneShrinks(v: Values, targets: set<Box>, d: char)
    ensures Shrinks(v, PrunePeers(v, targets, d))
  {
    var r := PrunePeers(v, targets, d);
    forall b | b in v ensures Subseq(r[b], v[b]) {
      if b in targets && |v[b]| > 1 {
        WithoutFacts(v[b], d);
      } else {
        SubseqRefl(v[b]);
      }
    }
  }

  /** A box that starts with one candidate is never touched: `eliminate` only
      rewrites peers longer than one (lines 95-96). */
  lemma {:induction false} EliminatedKeepsSolved(L: Layout, v: Values, n: nat, b: Box)
    requires n <= |L.boxes| && b in v && |v[b]| == 1
    ensures EliminatedUpTo(L, v, n)[b] == v[b]
  {
    if n > 0 {
      var w := EliminatedUpTo(L, v, n - 1);
      EliminatedKeepsSolved(L, v, n - 1, b);
      var box := L.boxes[n - 1];
      if box in w && box in L.peers && |w[box]| == 1 {
        assert EliminatedUpTo(L, v, n) == PrunePeers(w, L.peers[box], w[box][0]);
      }
    }
  }

  /** What `eliminate` does overall: it deletes digits, and never from a box
      that started with a single candidate. */
  lemma EliminatedEffect(L: Layout, v: Values)
    ensures Shrinks(v, Eliminated(L, v))
    ensures forall b :: b in v && |v[b]| == 1 ==> Eliminated(L, v)[b] == v[b]
  {
    EliminatedShrinks(L, v, |L.boxes|);
    forall b | b in v && |v[b]| == 1 ensures Eliminated(L, v)[b] == v[b] {
      EliminatedKeepsSolved(L, v, |L.boxes|, b);
    }
  }

  /** Candidates only shrink: each entry ends as its first value with some
      digits deleted. */
  lemma {:induction false} EliminatedShrinks(L: Layout, v: Values, n: nat)
    requires n <= |L.boxes|
    ensures Shrinks(v, EliminatedUpTo(L, v, n))
  {
    if n == 0 {
      ShrinksRefl(v);
    } else {
      var w := EliminatedUpTo(L, v, n - 1);
      var r := EliminatedUpTo(L, v, n);
      EliminatedShrinks(L, v, n - 1);
      var box := L.boxes[n - 1];
      if box in w && box in L.peers && |w[box]| == 1 {
        assert r == PrunePeers(w, L.peers[box], w[box][0]);
        PruneShrinks(w, L.peers[box], w[box][0]);
        ShrinksTrans(v, w, r);
      } else {
        assert r == w;
      }
    }
  }

  /** On duplicate-free candidate strings `eliminate` never empties a box: it
      only deletes one digit from a box that had at least two. */
  lemma {:induction false} EliminatedKeepsNonEmpty(L: Layout, v: Values, n: nat, b: Box)
    requires n <= |L.boxes|
    requires forall x :: x in v ==> Distinct(v[x])
    requires b in v && v[b] != []
    ensures EliminatedUpTo(L, v, n)[b] != []
  {
    if n > 0 {
      var w := EliminatedUpTo(L, v, n - 1);
      var r := EliminatedUpTo(L, v, n);
      EliminatedKeepsNonEmpty(L, v, n - 1, b);
      EliminatedShrinks(L, v, n - 1);
      var box := L.boxes[n - 1];
      if box in w && box in L.peers && |w[box]| == 1 && b in L.peers[box] && |w[b]| > 1 {
        SubseqDistinct(w[b], v[b]);
        WithoutDistinctLength(w[b], w[box][0]);
        assert r[b] == Without(w[b], w[box][0]);
      } else {
        assert r[b] == w[b];
      }
    }
  }

  /** A pruning turn for a box holding only `d` keeps every digit a solution can
      still put in the box's peers. */
  lemma PruneSound(L: Layout, v: Values, box: Box, s: map<Box, char>)
    requires box in v && box in L.peers && |v[box]| == 1
    requires IsSolution(L, s) && Consistent(s, v)
    ensures Consistent(s, PrunePeers(v, L.peers[box], v[box][0]))
  {
    var r := PrunePeers(v, L.peers[box], v[box][0]);
    assert s[box] == v[box][0] by {
      assert s[box] in v[box];
    }
    forall b | b in r ensures b in s && s[b] in r[b] {
      if b in L.peers[box] && |v[b]| > 1 {
        assert s[box] != s[b];
        WithoutFacts(v[b], v[box][0]);
      }
    }
  }

  /** No solution is lost: a filled grid that respects the peers and keeps a
      candidate of every box before `eliminate` still does after it. */
  lemma {:induction false} EliminatedSound(L: Layout, v: Values, n: nat, s: map<Box, char>)
    requires n <= |L.boxes|
    requires IsSolution(L, s) && Consistent(s, v)
    ensures Consistent(s, EliminatedUpTo(L, v, n))
  {
    if n > 0 {
      var w := EliminatedUpTo(L, v, n - 1);
      EliminatedSound(L, v, n - 1, s);
      var box := L.boxes[n - 1];
      if box in w && box in L.peers && |w[box]| == 1 {
        PruneSound(L, w, box, s);
      }
    }
  }
}
