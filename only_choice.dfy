/** `only_choice` (Projects/1_Sudoku/solution.py, lines 100-141): for every unit
    and every digit, a digit that only one box of the unit still allows is
    written into that box. Units are visited in `unitlist` order, digits in
    the order `"123456789"`, and each step sees the dictionary as the earlier
    steps left it. */
module OnlyChoiceRule {
  import opened Basics
  import opened Candidates
  import opened Units
  import opened Grid

  /** The boxes of `u`, in order, that still allow digit `d`. */
  function Holders(v: Values, u: seq<Box>, d: char): seq<Box>
    decreases |u|
  {
    if u == [] then []
    else
      var last := u[|u| - 1];
      Holders(v, u[..|u| - 1], d) + (if last in v && d in v[last] then [last] else [])
  }

  /** `b` is the one box of unit `u` where digit `d` can still go. */
  ghost predicate OnlyPlaceFor(v: Values, u: seq<Box>, d: char, b: Box) {
    && b in u && b in v && d in v[b]
    && forall j :: 0 <= j < |u| && u[j] in v && d in v[u[j]] ==> u[j] == b
  }

  /** Lines 124-140 for one unit and one digit: a unique holder gets the digit. */
  function ChoiceAt(v: Values, u: seq<Box>, d: char): (r: Values)
    ensures r.Keys == v.Keys
  {
    var h := Holders(v, u, d);
    if |h| == 1 then
      HoldersFacts(v, u, d);
      assert h[0] in h;
      v[h[0] := [d]]
    else v
  }

  /** The digit loop of lines 124-139 over one unit, for the digits `ds` in order. */
  function ChoiceInUnit(v: Values, u: seq<Box>, ds: string): (r: Values)
    ensures r.Keys == v.Keys
  {
    if ds == [] then v else ChoiceInUnit(ChoiceAt(v, u, ds[0]), u, ds[1..])
  }

  /** The unit loop of line 122 from the unit at position `k` to the end. */
  function OnlyChoiceFrom(L: Layout, v: Values, k: nat): (r: Values)
    ensures r.Keys == v.Keys
    decreases |L.unitlist| - k
  {
    if k >= |L.unitlist| then v else OnlyChoiceFrom(L, ChoiceInUnit(v, L.unitlist[k], Digits), k + 1)
  }

  /** The dictionary `only_choice` returns. */
  function OnlyChoiceApplied(L: Layout, v: Values): (r: Values)
    ensures r.Keys == v.Keys
  {
    OnlyChoiceFrom(L, v, 0)
  }

  /** Lines 126-135: count the boxes of `unit` allowing `d`, giving up once the
      count passes one, and remember the last box counted. */
  method CountHolders(v: Values, unit: seq<Box>, d: char) returns (count: nat, holder: Box)
    requires forall j :: 0 <= j < |unit| ==> unit[j] in v
    ensures count == if |Holders(v, unit, d)| < 2 then |Holders(v, unit, d)| else 2
    ensures count == 1 ==> holder == Holders(v, unit, d)[0]
  {
    count, holder := 0, "";
    for j := 0 to |unit|
      invariant count == |Holders(v, unit[..j], d)| <= 1
      invariant count == 1 ==> holder == Holders(v, unit[..j], d)[0]
    {
      assert unit[..j + 1][..j] == unit[..j];
      if d in v[unit[j]] {
        count := count + 1;
        holder := unit[j];
      }
      if count > 1 {
        HoldersPrefix(v, unit, j + 1, d);
        break;
      }
    }
    assert unit[..|unit|] == unit;
  }

  /** `only_choice(values)`. The source rewrites the caller's dictionary in
      place; here the rewritten dictionary is returned. */
  method OnlyChoice(L: Layout, values: Values) returns (r: Values)
    requires forall k, j :: 0 <= k < |L.unitlist| && 0 <= j < |L.unitlist[k]| ==> L.unitlist[k][j] in values
    ensures r == OnlyChoiceApplied(L, values)
  {
    r := values;
    for k := 0 to |L.unitlist|
      invariant OnlyChoiceFrom(L, r, k) == OnlyChoiceFrom(L, values, 0)
      invariant r.Keys == values.Keys
    {
      OnlyChoiceStep(L, r, k);
      r := ChooseInUnit(r, L.unitlist[k]);
    }
  }

  lemma OnlyChoiceStep(L: Layout, v: Values, k: nat)
    requires k < |L.unitlist|
    ensures OnlyChoiceFrom(L, v, k) == OnlyChoiceFrom(L, ChoiceInUnit(v, L.unitlist[k], Digits), k + 1)
  {
  }

  /** Lines 124-140: the digit loop over one unit. */
  method ChooseInUnit(v: Values, unit: seq<Box>) returns (r: Values)
    requires forall j :: 0 <= j < |unit| ==> unit[j] in v
    ensures r == ChoiceInUnit(v, unit, Digits)
  {
    r := v;
    assert Digits[0..] == Digits;
    for t := 0 to |Digits|
      invariant ChoiceInUnit(r, unit, Digits[t..]) == ChoiceInUnit(v, unit, Digits)
      invariant r.Keys == v.Keys
    {
      var digit := Digits[t];
      assert Digits[t..][0] == digit && Digits[t..][1..] == Digits[t + 1..];
      var count, holder := CountHolders(r, unit, digit);
      if count == 1 {
        r := r[holder := [digit]];
      }
    }
    assert Digits[|Digits|..] == [];
  }

  /** `Holders` keeps exactly the boxes of `u` that allow `d`, and no more boxes
      than `u` has. */
  lemma {:induction false} HoldersFacts(v: Values, u: seq<Box>, d: char)
    ensures forall x :: x in Holders(v, u, d) <==> x in u && x in v && d in v[x]
    ensures |Holders(v, u, d)| <= |u|
    decreases |u|
  {
    if u != [] {
      var init := u[..|u| - 1];
      HoldersFacts(v, init, d);
      assert u == init + [u[|u| - 1]];
    }
  }

  /** Looking at more of the unit never finds fewer holders. */
  lemma {:induction false} HoldersPrefix(v: Values, u: seq<Box>, j: nat, d: char)
    requires j <= |u|
    ensures |Holders(v, u[..j], d)| <= |Holders(v, u, d)|
    decreases |u| - j
  {
    if j < |u| {
      HoldersPrefix(v, u, j + 1, d);
      assert u[..j + 1][..j] == u[..j];
    } else {
      assert u[..j] == u;
    }
  }

  /** Holders of a duplicate-free unit are duplicate-free. */
  lemma {:induction false} HoldersDistinct(v: Values, u: seq<Box>, d: char)
    requires Distinct(u)
    ensures Distinct(Holders(v, u, d))
    decreases |u|
  {
    if u != [] {
      var init := u[..|u| - 1];
      var last := u[|u| - 1];
      assert Distinct(init);
      HoldersDistinct(v, init, d);
      HoldersFacts(v, init, d);
      assert last !in init by {
        forall j | 0 <= j < |init| ensures init[j] != last {
          assert init[j] == u[j];
        }
      }
    }
  }

  /** The unit loop's step at one digit writes `d` into box `b` exactly when
      `b` is the only box of the (duplicate-free) unit that allows `d`, and
      leaves every other box alone. */
  lemma ChoiceAtEffect(v: Values, u: seq<Box>, d: char, b: Box)
    requires Distinct(u) && b in v
    ensures ChoiceAt(v, u, d)[b] == if OnlyPlaceFor(v, u, d, b) then [d] else v[b]
  {
    var h := Holders(v, u, d);
    HoldersFacts(v, u, d);
    HoldersDistinct(v, u, d);
    if |h| == 1 && h[0] == b {
      assert h[0] in h;
      forall j | 0 <= j < |u| && u[j] in v && d in v[u[j]] ensures u[j] == b {
        assert u[j] in h;
      }
    }
    if OnlyPlaceFor(v, u, d, b) {
      assert b in h;
      forall i | 0 <= i < |h| ensures h[i] == b {
        assert h[i] in h;
        var j :| 0 <= j < |u| && u[j] == h[i];
      }
      AllSameBound(h, b);
    }
  }

  /** A duplicate-free sequence holding a single value has at most one element. */
  lemma AllSameBound<T>(s: seq<T>, x: T)
    requires Distinct(s) && forall i :: 0 <= i < |s| ==> s[i] == x
    ensures |s| <= 1
  {
    DistinctCardinality(s);
    assert (set y | y in s) <= {x};
    SubsetCardinality(set y | y in s, {x});
  }

  /** One step writes a digit only into a box that allowed it. */
  lemma ChoiceAtShrinks(v: Values, u: seq<Box>, d: char)
    ensures Shrinks(v, ChoiceAt(v, u, d))
  {
    var h := Holders(v, u, d);
    ShrinksRefl(v);
    if |h| == 1 {
      HoldersFacts(v, u, d);
      assert h[0] in h;
      SubseqSingle(d, v[h[0]]);
    }
  }

  lemma {:induction false} ChoiceInUnitShrinks(v: Values, u: seq<Box>, ds: string)
    ensures Shrinks(v, ChoiceInUnit(v, u, ds))
  {
    if ds == [] {
      ShrinksRefl(v);
    } else {
      var w := ChoiceAt(v, u, ds[0]);
      ChoiceAtShrinks(v, u, ds[0]);
      ChoiceInUnitShrinks(w, u, ds[1..]);
      ShrinksTrans(v, w, ChoiceInUnit(v, u, ds));
    }
  }

  /** `only_choice` only deletes candidates: a box either keeps its string or is
      cut down to one of its own digits. */
  lemma {:induction false} OnlyChoiceShrinks(L: Layout, v: Values, k: nat)
    ensures Shrinks(v, OnlyChoiceFrom(L, v, k))
    decreases |L.unitlist| - k
  {
    if k >= |L.unitlist| {
      ShrinksRefl(v);
    } else {
      var w := ChoiceInUnit(v, L.unitlist[k], Digits);
      ChoiceInUnitShrinks(v, L.unitlist[k], Digits);
      OnlyChoiceShrinks(L, w, k + 1);
      ShrinksTrans(v, w, OnlyChoiceFrom(L, v, k));
    }
  }

  lemma {:induction false} ChoiceInUnitKeepsNonEmpty(v: Values, u: seq<Box>, ds: string, b: Box)
    requires b in v && v[b] != []
    ensures ChoiceInUnit(v, u, ds)[b] != []
  {
    if ds != [] {
      ChoiceInUnitKeepsNonEmpty(ChoiceAt(v, u, ds[0]), u, ds[1..], b);
    }
  }

  /** `only_choice` never empties a box: it only ever writes a single digit. */
  lemma {:induction false} OnlyChoiceKeepsNonEmpty(L: Layout, v: Values, k: nat, b: Box)
    requires b in v && v[b] != []
    ensures OnlyChoiceFrom(L, v, k)[b] != []
    decreases |L.unitlist| - k
  {
    if k < |L.unitlist| {
      var w := ChoiceInUnit(v, L.unitlist[k], Digits);
      ChoiceInUnitKeepsNonEmpty(v, L.unitlist[k], Digits, b);
      OnlyChoiceKeepsNonEmpty(L, w, k + 1, b);
    }
  }

  /** What `only_choice` does overall: it deletes candidates, empties no box,
      and leaves every solved box as it was. */
  lemma OnlyChoiceEffect(L: Layout, v: Values)
    ensures Shrinks(v, OnlyChoiceApplied(L, v))
    ensures forall b :: b in v && v[b] != [] ==> OnlyChoiceApplied(L, v)[b] != []
    ensures forall b :: b in v && |v[b]| == 1 ==> OnlyChoiceApplied(L, v)[b] == v[b]
  {
    var r := OnlyChoiceApplied(L, v);
    OnlyChoiceShrinks(L, v, 0);
    forall b | b in v && v[b] != [] ensures r[b] != [] {
      OnlyChoiceKeepsNonEmpty(L, v, 0, b);
    }
    ShrinksKeepSolved(v, r);
  }

  /** A solution puts digit `Digits[t]` somewhere in unit `k`; if only one box
      of the unit allows it, that box is where the solution has it. */
  lemma ChoiceAtSound(L: Layout, v: Values, k: nat, t: nat, s: map<Box, char>)
    requires k < |L.unitlist| && t < |Digits|
    requires Fits(L, v) && IsSolution(L, s) && Consistent(s, v)
    ensures Consistent(s, ChoiceAt(v, L.unitlist[k], Digits[t]))
  {
    var u, d := L.unitlist[k], Digits[t];
    var h := Holders(v, u, d);
    if |h| == 1 {
      var j :| 0 <= j < |u| && u[j] in s && s[u[j]] == d;
      HoldersFacts(v, u, d);
      assert u[j] in h;
      assert h[0] in h;
    }
  }

  lemma {:induction false} ChoiceInUnitSound(L: Layout, v: Values, k: nat, t: nat, s: map<Box, char>)
    requires k < |L.unitlist| && t <= |Digits|
    requires Fits(L, v) && IsSolution(L, s) && Consistent(s, v)
    ensures Consistent(s, ChoiceInUnit(v, L.unitlist[k], Digits[t..]))
    decreases |Digits| - t
  {
    if t < |Digits| {
      var w := ChoiceAt(v, L.unitlist[k], Digits[t]);
      ChoiceAtSound(L, v, k, t, s);
      ChoiceInUnitSound(L, w, k, t + 1, s);
      assert Digits[t..][0] == Digits[t] && Digits[t..][1..] == Digits[t + 1..];
    }
  }

  /** No solution is lost: a solution consistent with the dictionary before
      `only_choice` is consistent with it after. */
  lemma {:induction false} OnlyChoiceSound(L: Layout, v: Values, k: nat, s: map<Box, char>)
    requires Fits(L, v) && IsSolution(L, s) && Consistent(s, v)
    ensures Consistent(s, OnlyChoiceFrom(L, v, k))
    decreases |L.unitlist| - k
  {
    if k < |L.unitlist| {
      var w := ChoiceInUnit(v, L.unitlist[k], Digits);
      ChoiceInUnitSound(L, v, k, 0, s);
      assert Digits[0..] == Digits;
      OnlyChoiceSound(L, w, k + 1, s);
    }
  }
}
