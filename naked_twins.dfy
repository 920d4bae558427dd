/** `naked_twins` (Projects/1_Sudoku/solution.py, lines 21-67). Two peers whose
    candidate strings are equal and two digits long are naked twins: their two
    digits are deleted from every box that is a peer of both. Twins are looked
    for in the dictionary as it was on entry; the deletions go to a copy. */
module NakedTwinsRule {
  import opened Basics
  import opened Candidates
  import opened Units
  import opened Grid

  /** The characters of a string, as a set. */
  function CharSet(s: string): set<char> {
    set d | d in s
  }

  /** `a` and `b` are boxes whose entries are the same two-digit string
      (the test at line 63). */
  predicate Twins(v: Values, a: Box, b: Box) {
    a in v && b in v && |v[a]| == 2 && |v[b]| == 2 && v[a] == v[b]
  }

  /** The digits the pair `(a, b)` deletes from `x`: those of `a` when the two
      are twins and `x` is a peer of both (lines 63-66), none otherwise. */
  function PairDigits(L: Layout, v: Values, a: Box, b: Box, x: Box): set<char> {
    if Twins(v, a, b) && a in L.peers && b in L.peers && x in L.peers[a] && x in L.peers[b]
    then CharSet(v[a]) else {}
  }

  /** The digits deleted from `x` by pairing `a` with each box of `bs`. */
  function DigitsFrom(L: Layout, v: Values, a: Box, bs: set<Box>, x: Box): set<char> {
    set b, d | b in bs && d in PairDigits(L, v, a, b, x) :: d
  }

  /** The digits deleted from `x` once the outer loop (line 60) has visited the
      first `n` boxes, each paired with all of its peers (line 61). */
  function TwinDigitsUpTo(L: Layout, v: Values, n: nat, x: Box): set<char>
    requires n <= |L.boxes|
  {
    if n == 0 then {}
    else
      var a := L.boxes[n - 1];
      TwinDigitsUpTo(L, v, n - 1, x) + (if a in L.peers then DigitsFrom(L, v, a, L.peers[a], x) else {})
  }

  /** The dictionary `naked_twins` returns: every box loses the digits of
      every naked-twin pair it is a common peer of. */
  function TwinsPruned(L: Layout, v: Values): (r: Values)
    ensures r.Keys == v.Keys
  {
    map x | x in v :: RemoveAll(v[x], TwinDigitsUpTo(L, v, |L.boxes|, x))
  }

  /** Lines 65-66 for one box: each character of `digits` is deleted in turn. */
  method DeleteDigits(s: string, digits: string) returns (r: string)
    ensures r == RemoveAll(s, CharSet(digits))
  {
    r := s;
    RemoveAllNone(s);
    assert CharSet(digits[..0]) == {};
    for k := 0 to |digits|
      invariant r == RemoveAll(s, CharSet(digits[..k]))
    {
      WithoutAfterRemoveAll(s, CharSet(digits[..k]), digits[k]);
      assert CharSet(digits[..k + 1]) == CharSet(digits[..k]) + {digits[k]} by {
        assert digits[..k + 1] == digits[..k] + [digits[k]];
      }
      r := Without(r, digits[k]);
    }
    assert digits[..|digits|] == digits;
  }

  /** Lines 64-66: every box of `targets`, in whatever order the set yields
      them, loses the characters of `digits`. */
  method StripDigits(out: Values, targets: set<Box>, digits: string) returns (r: Values)
    requires targets <= out.Keys
    ensures r.Keys == out.Keys
    ensures forall x :: x in out ==> r[x] == if x in targets then RemoveAll(out[x], CharSet(digits)) else out[x]
  {
    r := out;
    var rest := targets;
    while rest != {}
      invariant rest <= targets
      invariant r.Keys == out.Keys
      invariant forall x :: x in out ==>
        r[x] == if x in targets - rest then RemoveAll(out[x], CharSet(digits)) else out[x]
      decreases rest
    {
      var peer :| peer in rest;
      var stripped := DeleteDigits(r[peer], digits);
      r := r[peer := stripped];
      rest := rest - {peer};
    }
  }

  /** Lines 60-66 for one box `boxA`: it is paired with each of its peers, in
      whatever order the set yields them, and every twin pair found in `values`
      deletes its digits from the common peers in `out`. */
  method PairWithPeers(L: Layout, values: Values, boxA: Box, out: Values) returns (r: Values)
    requires boxA in values && boxA in L.peers && L.peers[boxA] <= values.Keys
    requires L.peers[boxA] <= L.peers.Keys && out.Keys == values.Keys
    ensures r.Keys == values.Keys
    ensures forall x :: x in values ==> r[x] == RemoveAll(out[x], DigitsFrom(L, values, boxA, L.peers[boxA], x))
  {
    var valueA := values[boxA];
    var rest := L.peers[boxA];
    r := out;
    assert L.peers[boxA] - rest == {};
    forall x | x in values ensures r[x] == RemoveAll(out[x], DigitsFrom(L, values, boxA, {}, x)) {
      DigitsFromNone(L, values, boxA, x);
      RemoveAllNone(out[x]);
    }
    while rest != {}
      invariant rest <= L.peers[boxA]
      invariant r.Keys == values.Keys
      invariant forall x :: x in values ==>
        r[x] == RemoveAll(out[x], DigitsFrom(L, values, boxA, L.peers[boxA] - rest, x))
      decreases rest
    {
      var boxB :| boxB in rest;
      var valueB := values[boxB];
      ghost var before := r;
      ghost var done := L.peers[boxA] - rest;
      if |valueA| == 2 && |valueB| == 2 && valueA == valueB {
        r := StripDigits(r, L.peers[boxA] * L.peers[boxB], valueA);
      }
      forall x | x in values
        ensures r[x] == RemoveAll(out[x], DigitsFrom(L, values, boxA, done + {boxB}, x))
      {
        PairStep(L, values, boxA, done, boxB, x, out[x], before[x], r[x]);
      }
      assert L.peers[boxA] - (rest - {boxB}) == done + {boxB};
      rest := rest - {boxB};
    }
    assert L.peers[boxA] - rest == L.peers[boxA];
  }

  /** `naked_twins(values)`: twins are found in `values`, deletions made in a copy. */
  method NakedTwins(L: Layout, values: Values) returns (out: Values)
    requires L.WellFormed() && Fits(L, values)
    ensures out == TwinsPruned(L, values)
  {
    out := values;
    forall x | x in values ensures out[x] == RemoveAll(values[x], TwinDigitsUpTo(L, values, 0, x)) {
      RemoveAllNone(values[x]);
    }
    for i := 0 to |L.boxes|
      invariant out.Keys == values.Keys
      invariant forall x :: x in values ==> out[x] == RemoveAll(values[x], TwinDigitsUpTo(L, values, i, x))
    {
      ghost var before := out;
      PeersAreBoxes(L, i);
      out := PairWithPeers(L, values, L.boxes[i], out);
      BoxStep(L, values, i, before, out);
    }
    SameEntries(out, TwinsPruned(L, values));
  }

  /** One turn of the outer loop (line 60) adds the digits of the box's pairs
      to those already deleted. */
  lemma BoxStep(L: Layout, v: Values, i: nat, before: Values, after: Values)
    requires i < |L.boxes| && L.boxes[i] in L.peers
    requires before.Keys == v.Keys && after.Keys == v.Keys
    requires forall x :: x in v ==> before[x] == RemoveAll(v[x], TwinDigitsUpTo(L, v, i, x))
    requires forall x :: x in v ==>
      after[x] == RemoveAll(before[x], DigitsFrom(L, v, L.boxes[i], L.peers[L.boxes[i]], x))
    ensures forall x :: x in v ==> after[x] == RemoveAll(v[x], TwinDigitsUpTo(L, v, i + 1, x))
  {
    forall x | x in v ensures after[x] == RemoveAll(v[x], TwinDigitsUpTo(L, v, i + 1, x)) {
      RemoveAllTwice(v[x], TwinDigitsUpTo(L, v, i, x), DigitsFrom(L, v, L.boxes[i], L.peers[L.boxes[i]], x));
    }
  }

  /** No pair contributes anything before any pair has been looked at. */
  lemma DigitsFromNone(L: Layout, v: Values, a: Box, x: Box)
    ensures DigitsFrom(L, v, a, {}, x) == {}
  {
  }

  /** Pairing `a` with one more box adds that pair's digits. */
  lemma DigitsFromAdd(L: Layout, v: Values, a: Box, bs: set<Box>, b: Box, x: Box)
    ensures DigitsFrom(L, v, a, bs + {b}, x) == DigitsFrom(L, v, a, bs, x) + PairDigits(L, v, a, b, x)
  {
    forall d | d in PairDigits(L, v, a, b, x) ensures d in DigitsFrom(L, v, a, bs + {b}, x) {
      assert b in bs + {b};
    }
  }

  /** One turn of the inner loop (lines 61-66) at box `x`: pairing `a` with `b`
      deletes exactly that pair's digits. */
  lemma PairStep(L: Layout, v: Values, a: Box, done: set<Box>, b: Box, x: Box,
                 start: string, before: string, after: string)
    requires before == RemoveAll(start, DigitsFrom(L, v, a, done, x))
    requires after == if Twins(v, a, b) && a in L.peers && b in L.peers && x in L.peers[a] * L.peers[b]
                      then RemoveAll(before, CharSet(v[a])) else before
    ensures after == RemoveAll(start, DigitsFrom(L, v, a, done + {b}, x))
  {
    DigitsFromAdd(L, v, a, done, b, x);
    RemoveAllTwice(start, DigitsFrom(L, v, a, done, x), PairDigits(L, v, a, b, x));
    if PairDigits(L, v, a, b, x) == {} {
      RemoveAllNone(before);
    }
  }

  /** `naked_twins` only deletes candidates. */
  lemma TwinsPrunedShrinks(L: Layout, v: Values)
    ensures Shrinks(v, TwinsPruned(L, v))
  {
    var r := TwinsPruned(L, v);
    forall x | x in v ensures Subseq(r[x], v[x]) {
      RemoveAllFacts(v[x], TwinDigitsUpTo(L, v, |L.boxes|, x));
    }
  }

  /** The twin pairs around `x`: `a` and its peer `b` are naked twins and `x` is
      a peer of both. */
  ghost predicate TwinsAround(L: Layout, v: Values, a: Box, b: Box, x: Box) {
    a in L.peers && b in L.peers[a] && Twins(v, a, b) && b in L.peers && x in L.peers[a] && x in L.peers[b]
  }

  /** A digit is deleted from `x` by the first `n` boxes exactly when one of
      them has a twin around `x` holding that digit. */
  lemma {:induction false} TwinDigitsUpToMembers(L: Layout, v: Values, n: nat, x: Box, d: char)
    requires n <= |L.boxes|
    ensures d in TwinDigitsUpTo(L, v, n, x) <==>
      exists j, b :: 0 <= j < n && TwinsAround(L, v, L.boxes[j], b, x) && d in v[L.boxes[j]]
  {
    if n > 0 {
      TwinDigitsUpToMembers(L, v, n - 1, x, d);
      var a := L.boxes[n - 1];
      if d in TwinDigitsUpTo(L, v, n, x) && d !in TwinDigitsUpTo(L, v, n - 1, x) {
        var b :| b in L.peers[a] && d in PairDigits(L, v, a, b, x);
        assert TwinsAround(L, v, L.boxes[n - 1], b, x);
      }
      if exists j, b :: 0 <= j < n && TwinsAround(L, v, L.boxes[j], b, x) && d in v[L.boxes[j]] {
        var j, b :| 0 <= j < n && TwinsAround(L, v, L.boxes[j], b, x) && d in v[L.boxes[j]];
        if j == n - 1 {
          assert d in PairDigits(L, v, a, b, x);
        }
      }
    }
  }

  /** `naked_twins` deletes digit `d` from box `x` exactly when some naked-twin
      pair with `x` among the common peers holds `d`; nothing else changes. */
  lemma TwinsPrunedExactly(L: Layout, v: Values, x: Box, d: char)
    requires L.WellFormed() && x in v
    ensures d in TwinsPruned(L, v)[x] <==>
      d in v[x] && !exists a, b :: TwinsAround(L, v, a, b, x) && d in v[a]
  {
    TwinDigitsUpToMembers(L, v, |L.boxes|, x, d);
    RemoveAllFacts(v[x], TwinDigitsUpTo(L, v, |L.boxes|, x));
    BoxesAreKeys(L);
    if exists a, b :: TwinsAround(L, v, a, b, x) && d in v[a] {
      var a, b :| TwinsAround(L, v, a, b, x) && d in v[a];
      var j :| 0 <= j < |L.boxes| && L.boxes[j] == a;
      assert TwinsAround(L, v, L.boxes[j], b, x);
    }
  }

  /** A solution consistent with `v` keeps, in every common peer of two naked
      twins, a digit other than the twins' two: the twins take both. */
  lemma TwinsAroundSound(L: Layout, v: Values, a: Box, b: Box, x: Box, s: map<Box, char>)
    requires IsSolution(L, s) && Consistent(s, v) && TwinsAround(L, v, a, b, x) && x in v
    ensures s[x] !in v[a]
  {
    var p, q := v[a][0], v[a][1];
    assert v[a] == [p, q];
    assert s[a] != s[b];
    assert s[x] != s[a] && s[x] != s[b];
  }

  /** No solution is lost: a solution consistent with `values` before
      `naked_twins` is consistent with the result. */
  lemma TwinsPrunedSound(L: Layout, v: Values, s: map<Box, char>)
    requires L.WellFormed() && IsSolution(L, s) && Consistent(s, v)
    ensures Consistent(s, TwinsPruned(L, v))
  {
    forall x | x in v ensures s[x] in TwinsPruned(L, v)[x] {
      TwinsPrunedExactly(L, v, x, s[x]);
      forall a, b | TwinsAround(L, v, a, b, x) ensures s[x] !in v[a] {
        TwinsAroundSound(L, v, a, b, x, s);
      }
    }
  }
}
