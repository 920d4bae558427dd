/** The unit list of a diagonal Sudoku (Projects/1_Sudoku/solution.py, lines 5-13):
    nine rows, nine columns, nine 3x3 squares and the two main diagonals.
    `rows`, `cols` and `cross` belong to a helper module that is not part of
    this model; they are given here their usual meaning: row labels A-I,
    column labels 1-9, and `cross(a, b)` the list of every label of `a`
    followed by every label of `b`, row-major. */
module Units {
  import opened Basics

  type Box = string

  const Rows: string := "ABCDEFGHI"
  const Cols: string := "123456789"
  const RowBands: seq<string> := ["ABC", "DEF", "GHI"]
  const ColBands: seq<string> := ["123", "456", "789"]

  /** The names `ra + c` for every `c` in `b`, in order. */
  function Prefixed(ra: char, b: string): (r: seq<Box>)
    ensures |r| == |b|
    ensures forall j :: 0 <= j < |b| ==> r[j] == [ra, b[j]]
  {
    seq(|b|, j requires 0 <= j < |b| => [ra, b[j]])
  }

  /** Box names `r + c` for every `r` in `a` (outer) and `c` in `b` (inner). */
  function Cross(a: string, b: string): (r: seq<Box>)
    ensures |r| == |a| * |b|
  {
    if a == [] then []
    else
      var rest := Cross(a[1..], b);
      assert |a| * |b| == |b| + (|a| - 1) * |b|;
      Prefixed(a[0], b) + rest
  }

  /** Every name of `Cross(a, b)` is a label of `a` followed by a label of `b`. */
  lemma {:induction false} CrossSound(a: string, b: string, x: Box)
    requires x in Cross(a, b)
    ensures |x| == 2 && x[0] in a && x[1] in b
  {
    var first := Prefixed(a[0], b);
    assert Cross(a, b) == first + Cross(a[1..], b);
    if x in first {
      var j :| 0 <= j < |first| && first[j] == x;
      assert x == [a[0], b[j]];
    } else {
      CrossSound(a[1..], b, x);
      assert a == [a[0]] + a[1..];
    }
  }

  /** Every label of `a` followed by a label of `b` is a name of `Cross(a, b)`. */
  lemma {:induction false} CrossComplete(a: string, b: string, ra: char, cb: char)
    requires ra in a && cb in b
    ensures [ra, cb] in Cross(a, b)
  {
    var first := Prefixed(a[0], b);
    assert Cross(a, b) == first + Cross(a[1..], b);
    if ra == a[0] {
      var j :| 0 <= j < |b| && b[j] == cb;
      assert first[j] == [ra, cb];
    } else {
      assert ra in a[1..] by { assert a == [a[0]] + a[1..]; }
      CrossComplete(a[1..], b, ra, cb);
    }
  }

  /** `[r + c for r, c in zip(a, b)]`. */
  function Zip(a: string, b: string): (r: seq<Box>)
    requires |a| == |b|
    ensures |r| == |a|
    ensures forall i :: 0 <= i < |a| ==> r[i] == [a[i], b[i]]
  {
    seq(|a|, i requires 0 <= i < |a| => [a[i], b[i]])
  }

  /** `s[-1::-1]`. */
  function Reverse(s: string): (r: string)
    ensures |r| == |s|
    ensures forall i :: 0 <= i < |s| ==> r[i] == s[|s| - 1 - i]
  {
    seq(|s|, i requires 0 <= i < |s| => s[|s| - 1 - i])
  }

  /** `boxes`: all 81 box names. */
  function Boxes(): seq<Box> {
    Cross(Rows, Cols)
  }

  function RowUnits(): seq<seq<Box>> {
    seq(|Rows|, i requires 0 <= i < |Rows| => Cross([Rows[i]], Cols))
  }

  function ColumnUnits(): seq<seq<Box>> {
    seq(|Cols|, i requires 0 <= i < |Cols| => Cross(Rows, [Cols[i]]))
  }

  function SquareUnits(): seq<seq<Box>> {
    seq(9, i requires 0 <= i < 9 => Cross(RowBands[i / 3], ColBands[i % 3]))
  }

  function DiagUnits(): seq<seq<Box>> {
    [Zip(Rows, Cols)]
  }

  function RevDiagUnits(): seq<seq<Box>> {
    [Zip(Rows, Reverse(Cols))]
  }

  /** `unitlist` after line 13: rows, columns, squares, diagonal, anti-diagonal. */
  function UnitList(): seq<seq<Box>> {
    RowUnits() + ColumnUnits() + SquareUnits() + DiagUnits() + RevDiagUnits()
  }

  /** Names that start with different labels differ, so `Cross` of duplicate-free
      labels is duplicate-free. */
  lemma {:induction false} CrossDistinct(a: string, b: string)
    requires Distinct(a) && Distinct(b)
    ensures Distinct(Cross(a, b))
  {
    if a != [] {
      var first := Prefixed(a[0], b);
      var rest := Cross(a[1..], b);
      assert Distinct(a[1..]) by {
        forall i, j | 0 <= i < j < |a[1..]| ensures a[1..][i] != a[1..][j] {
          assert a[1..][i] == a[i + 1] && a[1..][j] == a[j + 1];
        }
      }
      CrossDistinct(a[1..], b);
      assert Cross(a, b) == first + rest;
      forall i, j | 0 <= i < j < |first + rest| ensures (first + rest)[i] != (first + rest)[j] {
        if j < |first| {
          assert first[i] == [a[0], b[i]] && first[j] == [a[0], b[j]];
        } else if i >= |first| {
          assert (first + rest)[i] == rest[i - |first|] && (first + rest)[j] == rest[j - |first|];
        } else {
          var y := rest[j - |first|];
          assert y in rest;
          CrossSound(a[1..], b, y);
          assert a[0] !in a[1..] by {
            forall k | 0 <= k < |a[1..]| ensures a[1..][k] != a[0] {
              assert a[1..][k] == a[k + 1];
            }
          }
          assert first[i][0] == a[0];
        }
      }
    }
  }

  /** A row label followed by a column label names one of the 81 boxes. */
  lemma LabelsMakeBox(x: Box)
    requires |x| == 2 && x[0] in Rows && x[1] in Cols
    ensures x in Boxes()
  {
    CrossComplete(Rows, Cols, x[0], x[1]);
    assert x == [x[0], x[1]];
  }

  /** A unit built by `Cross` from row and column labels lies among the 81 boxes. */
  lemma CrossWithinBoxes(a: string, b: string)
    requires forall c :: c in a ==> c in Rows
    requires forall c :: c in b ==> c in Cols
    ensures forall x :: x in Cross(a, b) ==> x in Boxes()
  {
    forall x | x in Cross(a, b) ensures x in Boxes() {
      CrossSound(a, b, x);
      LabelsMakeBox(x);
    }
  }

  /** A diagonal pairs distinct rows with column labels, so its boxes are distinct boxes. */
  lemma ZipUnit(cs: string)
    requires |cs| == |Rows|
    requires forall c :: c in cs ==> c in Cols
    ensures Distinct(Zip(Rows, cs))
    ensures forall x :: x in Zip(Rows, cs) ==> x in Boxes()
  {
    var z := Zip(Rows, cs);
    forall i, j | 0 <= i < j < |z| ensures z[i] != z[j] {
      assert z[i][0] == Rows[i] && z[j][0] == Rows[j];
    }
    forall x | x in z ensures x in Boxes() {
      var i :| 0 <= i < |z| && z[i] == x;
      LabelsMakeBox(x);
    }
  }

  /** A unit of 9 distinct boxes, all among `boxes`. */
  ghost predicate UnitOver(u: seq<Box>, boxes: seq<Box>) {
    |u| == 9 && Distinct(u) && forall x :: x in u ==> x in boxes
  }

  /** Every unit of `units` holds 9 distinct boxes, all among `boxes`. */
  ghost predicate UnitsOver(units: seq<seq<Box>>, boxes: seq<Box>) {
    forall u :: u in units ==> UnitOver(u, boxes)
  }

  lemma UnitsOverConcat(a: seq<seq<Box>>, b: seq<seq<Box>>, boxes: seq<Box>)
    requires UnitsOver(a, boxes) && UnitsOver(b, boxes)
    ensures UnitsOver(a + b, boxes)
  {
  }

  lemma RowUnitGood(i: nat)
    requires i < |Rows|
    ensures UnitOver(Cross([Rows[i]], Cols), Boxes())
  {
    LabelsDistinct();
    CrossDistinct([Rows[i]], Cols);
    CrossWithinBoxes([Rows[i]], Cols);
  }

  lemma ColumnUnitGood(i: nat)
    requires i < |Cols|
    ensures UnitOver(Cross(Rows, [Cols[i]]), Boxes())
  {
    LabelsDistinct();
    CrossDistinct(Rows, [Cols[i]]);
    CrossWithinBoxes(Rows, [Cols[i]]);
  }

  /** Each band holds three distinct row labels. */
  lemma RowBandFacts(rs: string)
    requires rs in RowBands
    ensures |rs| == 3 && Distinct(rs) && forall c :: c in rs ==> c in Rows
  {
    assert rs == "ABC" || rs == "DEF" || rs == "GHI";
  }

  /** Each band holds three distinct column labels. */
  lemma ColBandFacts(cs: string)
    requires cs in ColBands
    ensures |cs| == 3 && Distinct(cs) && forall c :: c in cs ==> c in Cols
  {
    assert cs == "123" || cs == "456" || cs == "789";
  }

  lemma BandUnitGood(rs: string, cs: string)
    requires rs in RowBands && cs in ColBands
    ensures UnitOver(Cross(rs, cs), Boxes())
  {
    RowBandFacts(rs);
    ColBandFacts(cs);
    CrossDistinct(rs, cs);
    CrossWithinBoxes(rs, cs);
  }

  lemma SquareUnitGood(i: nat)
    requires i < 9
    ensures UnitOver(SquareUnits()[i], Boxes())
  {
    var p, q := i / 3, i % 3;
    assert 0 <= p < 3 && 0 <= q < 3;
    assert SquareUnits()[i] == Cross(RowBands[p], ColBands[q]);
    BandUnitGood(RowBands[p], ColBands[q]);
  }

  lemma RevDiagUnitGood()
    ensures UnitOver(Zip(Rows, Reverse(Cols)), Boxes())
  {
    var sc := Reverse(Cols);
    forall c | c in sc ensures c in Cols {
      var i :| 0 <= i < |sc| && sc[i] == c;
      assert c == Cols[|Cols| - 1 - i];
    }
    ZipUnit(sc);
  }

  lemma RowsGood()
    ensures UnitsOver(RowUnits(), Boxes())
  {
    forall u | u in RowUnits() ensures UnitOver(u, Boxes()) {
      var i :| 0 <= i < |RowUnits()| && RowUnits()[i] == u;
      RowUnitGood(i);
    }
  }

  lemma ColumnsGood()
    ensures UnitsOver(ColumnUnits(), Boxes())
  {
    forall u | u in ColumnUnits() ensures UnitOver(u, Boxes()) {
      var i :| 0 <= i < |ColumnUnits()| && ColumnUnits()[i] == u;
      ColumnUnitGood(i);
    }
  }

  lemma SquaresGood()
    ensures UnitsOver(SquareUnits(), Boxes())
  {
    forall u | u in SquareUnits() ensures UnitOver(u, Boxes()) {
      var i :| 0 <= i < |SquareUnits()| && SquareUnits()[i] == u;
      SquareUnitGood(i);
    }
  }

  lemma DiagonalGood()
    ensures UnitsOver(DiagUnits(), Boxes())
  {
    ZipUnit(Cols);
  }

  lemma AntiDiagonalGood()
    ensures UnitsOver(RevDiagUnits(), Boxes())
  {
    RevDiagUnitGood();
  }

  /** Lines 5-13 build 29 units of 9 distinct boxes each, all among the 81. */
  lemma UnitListShape()
    ensures |UnitList()| == 29
    ensures UnitsOver(UnitList(), Boxes())
  {
    RowsGood();
    ColumnsGood();
    UnitsOverConcat(RowUnits(), ColumnUnits(), Boxes());
    SquaresGood();
    UnitsOverConcat(RowUnits() + ColumnUnits(), SquareUnits(), Boxes());
    DiagonalGood();
    UnitsOverConcat(RowUnits() + ColumnUnits() + SquareUnits(), DiagUnits(), Boxes());
    AntiDiagonalGood();
    UnitsOverConcat(RowUnits() + ColumnUnits() + SquareUnits() + DiagUnits(), RevDiagUnits(), Boxes());
  }

  /** `boxes = cross(rows, cols)`, over which lines 16-18 build units and peers:
      81 distinct box names, one of which is `A1`. */
  lemma BoxesShape()
    ensures |Boxes()| == 81 && Distinct(Boxes()) && "A1" in Boxes()
  {
    BoxesDistinct();
    CrossComplete(Rows, Cols, 'A', '1');
  }

  lemma BoxesDistinct()
    ensures Distinct(Boxes())
  {
    LabelsDistinct();
    CrossDistinct(Rows, Cols);
  }

  /** No row label and no column label is repeated. */
  lemma LabelsDistinct()
    ensures Distinct(Rows) && Distinct(Cols)
  {
  }
}
