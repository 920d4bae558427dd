/** The puzzle as the solver sees it: a dictionary from box name to the string
    of digits still possible there, and the fixed layout of boxes, units and
    peers it is checked against. */
module Grid {
  import opened Basics
  import opened Candidates
  import opened Units

  /** `values`: box name to candidate string, e.g. `{'A1': '123456789', 'A2': '3', ...}`. */
  type Values = map<Box, string>

  /** The digits `only_choice` tries, in this order (line 124). */
  const Digits: string := "123456789"

  /** What the solver reads besides `values`: `boxes` in the dictionary's
      iteration order, `unitlist`, and `peers`. The last comes from a helper
      module that is not part of this model; `WellFormed` states what the
      solver relies on it for. */
  datatype Layout = Layout(boxes: seq<Box>, unitlist: seq<seq<Box>>, peers: map<Box, set<Box>>)
  {
    ghost predicate WellFormed() {
      // `boxes` lists every box of `peers` once (every box has a peer set)
      && Distinct(boxes)
      && (forall i :: 0 <= i < |boxes| ==> boxes[i] in peers)
      && |peers| == |boxes|
      // peers are boxes, never the box itself, and the relation is symmetric
      && PeerRelation(peers)
      // units list boxes, each at most once
      && (forall k, j :: 0 <= k < |unitlist| && 0 <= j < |unitlist[k]| ==> unitlist[k][j] in peers)
      && (forall k :: 0 <= k < |unitlist| ==> Distinct(unitlist[k]))
    }
  }

  /** Peers are boxes, never the box itself, and the relation is symmetric. */
  ghost predicate PeerRelation(peers: map<Box, set<Box>>) {
    forall b, p :: b in peers && p in peers[b] ==> p in peers && p != b && b in peers[p]
  }

  /** The dictionary has exactly the layout's boxes as keys. */
  ghost predicate Fits(L: Layout, v: Values) {
    v.Keys == L.peers.Keys
  }

  /** The boxes with exactly one candidate. */
  function Solved(v: Values): set<Box> {
    set b | b in v && |v[b]| == 1
  }

  /** `len([box for box in values.keys() if len(values[box]) == 1])`. */
  function SolvedCount(v: Values): (n: nat)
    ensures n <= |v|
  {
    assert Solved(v) <= v.Keys;
    SubsetCardinality(Solved(v), v.Keys);
    |Solved(v)|
  }

  /** Some box has no candidate left (the test at line 180). */
  predicate HasEmpty(v: Values) {
    exists b :: b in v && |v[b]| == 0
  }

  /** Every entry of `r` is the entry of `v` with some digits deleted. */
  ghost predicate Shrinks(v: Values, r: Values) {
    r.Keys == v.Keys && forall b :: b in v ==> Subseq(r[b], v[b])
  }

  /** A filled grid: one digit per box, peers differ, and every unit holds
      every digit. */
  ghost predicate IsSolution(L: Layout, s: map<Box, char>) {
    && s.Keys == L.peers.Keys
    && (forall b, p :: b in L.peers && p in L.peers[b] && p in s ==> s[b] != s[p])
    && (forall k, t :: 0 <= k < |L.unitlist| && 0 <= t < |Digits| ==>
          exists j :: 0 <= j < |L.unitlist[k]| && L.unitlist[k][j] in s && s[L.unitlist[k][j]] == Digits[t])
  }

  /** The filled grid `s` keeps, in every box, a digit still allowed by `v`. */
  ghost predicate Consistent(s: map<Box, char>, v: Values) {
    forall b :: b in v ==> b in s && s[b] in v[b]
  }

  lemma SubsetCardinality<T>(a: set<T>, b: set<T>)
    requires a <= b
    ensures |a| <= |b|
  {
    assert b == a + (b - a);
  }

  /** Two dictionaries with the same boxes and the same entries are equal. */
  lemma SameEntries(a: Values, b: Values)
    requires a.Keys == b.Keys && forall x :: x in a ==> a[x] == b[x]
    ensures a == b
  {
  }

  lemma ShrinksRefl(v: Values)
    ensures Shrinks(v, v)
  {
    forall b | b in v ensures Subseq(v[b], v[b]) {
      SubseqRefl(v[b]);
    }
  }

  lemma ShrinksTrans(u: Values, v: Values, w: Values)
    requires Shrinks(u, v) && Shrinks(v, w)
    ensures Shrinks(u, w)
  {
    forall b | b in u ensures Subseq(w[b], u[b]) {
      SubseqTrans(w[b], v[b], u[b]);
    }
  }

  /** Shrinking never lengthens an entry. */
  lemma ShrinksLengths(v: Values, r: Values)
    requires Shrinks(v, r)
    ensures forall b :: b in v ==> |r[b]| <= |v[b]|
  {
    forall b | b in v ensures |r[b]| <= |v[b]| {
      SubseqBounds(r[b], v[b]);
    }
  }

  /** While no box empties, shrinking leaves every solved box as it was, so the
      solved boxes only grow. */
  lemma {:induction false} ShrinksKeepSolved(v: Values, r: Values)
    requires Shrinks(v, r)
    ensures forall b :: b in v && |v[b]| == 1 && r[b] != [] ==> r[b] == v[b]
    ensures !HasEmpty(r) ==> Solved(v) <= Solved(r) && SolvedCount(v) <= SolvedCount(r)
  {
    forall b | b in v && |v[b]| == 1 && r[b] != [] ensures r[b] == v[b] {
      SubseqBounds(r[b], v[b]);
      assert r[b][0] in r[b];
    }
    if !HasEmpty(r) {
      SubsetCardinality(Solved(v), Solved(r));
    }
  }

  /** A filled grid consistent with the entries of `v` fills no empty box of `v`. */
  lemma ConsistentNoEmpty(s: map<Box, char>, v: Values)
    requires Consistent(s, v)
    ensures !HasEmpty(v)
  {
  }

  /** Each listed box has a peer set, made of boxes. */
  lemma PeersAreBoxes(L: Layout, i: int)
    requires L.WellFormed() && 0 <= i < |L.boxes|
    ensures L.boxes[i] in L.peers && L.peers[L.boxes[i]] <= L.peers.Keys
  {
  }

  /** Every box a unit lists is a key of a dictionary that fits the layout. */
  lemma UnitBoxesAreKeys(L: Layout, v: Values)
    requires L.WellFormed() && Fits(L, v)
    ensures forall k, j :: 0 <= k < |L.unitlist| && 0 <= j < |L.unitlist[k]| ==> L.unitlist[k][j] in v
  {
  }

  /** The boxes of a well-formed layout are exactly the keys of its peer map. */
  lemma BoxesAreKeys(L: Layout)
    requires L.WellFormed()
    ensures forall b :: b in L.peers <==> b in L.boxes
  {
    var listed := set b | b in L.boxes;
    assert listed <= L.peers.Keys by {
      forall b | b in listed ensures b in L.peers {
        var i :| 0 <= i < |L.boxes| && L.boxes[i] == b;
      }
    }
    DistinctCardinality(L.boxes);
    SubsetSameSize(listed, L.peers.Keys);
  }

  /** A subset as large as its superset is the whole superset. */
  lemma SubsetSameSize<T>(a: set<T>, b: set<T>)
    requires a <= b && |a| == |b|
    ensures a == b
  {
    var rest := b - a;
    assert b == a + rest && a !! rest;
    assert |rest| == 0;
  }

  /** The layout built from lines 5-13 satisfies `WellFormed` for any peer
      relation with the assumed shape. */
  lemma StandardLayout(peers: map<Box, set<Box>>)
    requires forall b :: b in peers <==> b in Boxes()
    requires PeerRelation(peers)
    ensures Layout(Boxes(), UnitList(), peers).WellFormed()
    ensures |Boxes()| == 81 && "A1" in peers
  {
    BoxesShape();
    UnitListShape();
    LayoutWellFormed(Boxes(), UnitList(), peers);
  }

  /** Duplicate-free boxes, each the key of one peer set, and units drawn from
      those boxes without repeats make a well-formed layout. */
  lemma LayoutWellFormed(boxes: seq<Box>, units: seq<seq<Box>>, peers: map<Box, set<Box>>)
    requires Distinct(boxes)
    requires forall b :: b in peers <==> b in boxes
    requires PeerRelation(peers)
    requires UnitsOver(units, boxes)
    ensures Layout(boxes, units, peers).WellFormed()
  {
    DistinctCardinality(boxes);
    assert peers.Keys == set b | b in boxes;
    forall k, j | 0 <= k < |units| && 0 <= j < |units[k]| ensures units[k][j] in peers {
      assert units[k] in units && units[k][j] in units[k];
    }
    forall k | 0 <= k < |units| ensures Distinct(units[k]) {
      assert units[k] in units;
    }
  }
}
