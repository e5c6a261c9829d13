/** The Transition Matrix Builder `get_migration_matrix` (src/data.py): the
    regime types of two yearly slices are cross-tabulated position by
    position into a 4x4 block, with a row of column totals, a column of row
    totals and an undefined corner. */
module Transition {
  import opened Wrappers
  import opened Reshape
  import opened Query
  import opened Regime
  import opened SrcData

  /** A cell of the numpy result: a count (stored as a float in the source)
      or NaN. */
  datatype Cell = Num(n: nat) | Undefined

  /** The label of row or column `b` of the matrix. */
  function RegimeName(b: nat): string
    requires b < 4
  {
    Label(FromBand(b))
  }

  /** `((df1["RegimeType"] == r1) & (df2["RegimeType"] == r2)).sum()`: the
      positions where the start slice has label r1 and the end slice r2. */
  function CoCount(s1: seq<Record>, s2: seq<Record>, r1: string, r2: string): (n: nat)
    requires |s1| == |s2|
    ensures n <= |s1|
  {
    if s1 == [] then 0
    else (if s1[0].regimeType == r1 && s2[0].regimeType == r2 then 1 else 0) + CoCount(s1[1..], s2[1..], r1, r2)
  }

  /** The positions where one slice has label r. */
  function LabelCount(s: seq<Record>, r: string): (n: nat)
    ensures n <= |s|
  {
    if s == [] then 0 else (if s[0].regimeType == r then 1 else 0) + LabelCount(s[1..], r)
  }

  /** Total of row i of the 4x4 block. */
  function RowTotal(s1: seq<Record>, s2: seq<Record>, i: nat): nat
    requires |s1| == |s2| && i < 4
  {
    CoCount(s1, s2, RegimeName(i), RegimeName(0)) + CoCount(s1, s2, RegimeName(i), RegimeName(1))
    + CoCount(s1, s2, RegimeName(i), RegimeName(2)) + CoCount(s1, s2, RegimeName(i), RegimeName(3))
  }

  /** Total of column j of the 4x4 block. */
  function ColumnTotal(s1: seq<Record>, s2: seq<Record>, j: nat): nat
    requires |s1| == |s2| && j < 4
  {
    CoCount(s1, s2, RegimeName(0), RegimeName(j)) + CoCount(s1, s2, RegimeName(1), RegimeName(j))
    + CoCount(s1, s2, RegimeName(2), RegimeName(j)) + CoCount(s1, s2, RegimeName(3), RegimeName(j))
  }

  /** Every record carries one of the four labels. */
  ghost predicate AllLabelled(s: seq<Record>)
  {
    forall p :: 0 <= p < |s| ==> IsRegimeLabel(s[p].regimeType)
  }

  /** When every end label is one of the four, row i's total counts the
      positions where the start slice has band i. */
  lemma {:induction false} RowTotalIsStartCount(s1: seq<Record>, s2: seq<Record>, i: nat)
    requires |s1| == |s2| && i < 4 && AllLabelled(s2)
    ensures RowTotal(s1, s2, i) == LabelCount(s1, RegimeName(i))
  {
    if s1 != [] {
      assert AllLabelled(s2[1..]) by {
        forall p | 0 <= p < |s2[1..]| ensures IsRegimeLabel(s2[1..][p].regimeType) {
          assert s2[1..][p] == s2[p + 1];
        }
      }
      RowTotalIsStartCount(s1[1..], s2[1..], i);
      assert IsRegimeLabel(s2[0].regimeType);
      LabelParseRoundTrip(ParseLabel(s2[0].regimeType).value);
    }
  }

  /** When every start label is one of the four, column j's total counts the
      positions where the end slice has band j. */
  lemma {:induction false} ColumnTotalIsEndCount(s1: seq<Record>, s2: seq<Record>, j: nat)
    requires |s1| == |s2| && j < 4 && AllLabelled(s1)
    ensures ColumnTotal(s1, s2, j) == LabelCount(s2, RegimeName(j))
  {
    if s1 != [] {
      assert AllLabelled(s1[1..]) by {
        forall p | 0 <= p < |s1[1..]| ensures IsRegimeLabel(s1[1..][p].regimeType) {
          assert s1[1..][p] == s1[p + 1];
        }
      }
      ColumnTotalIsEndCount(s1[1..], s2[1..], j);
      assert IsRegimeLabel(s1[0].regimeType);
      LabelParseRoundTrip(ParseLabel(s1[0].regimeType).value);
    }
  }

  /** Every position with one of the four labels is counted in exactly one
      band. */
  lemma {:induction false} LabelCountsCover(s: seq<Record>)
    requires AllLabelled(s)
    ensures LabelCount(s, RegimeName(0)) + LabelCount(s, RegimeName(1))
      + LabelCount(s, RegimeName(2)) + LabelCount(s, RegimeName(3)) == |s|
  {
    if s != [] {
      assert AllLabelled(s[1..]) by {
        forall p | 0 <= p < |s[1..]| ensures IsRegimeLabel(s[1..][p].regimeType) {
          assert s[1..][p] == s[p + 1];
        }
      }
      LabelCountsCover(s[1..]);
      assert IsRegimeLabel(s[0].regimeType);
      LabelParseRoundTrip(ParseLabel(s[0].regimeType).value);
    }
  }

  /** The 4x4 block sums to the slice length: every position of two
      labelled slices falls in exactly one cell. */
  lemma BlockTotal(s1: seq<Record>, s2: seq<Record>)
    requires |s1| == |s2| && AllLabelled(s1) && AllLabelled(s2)
    ensures RowTotal(s1, s2, 0) + RowTotal(s1, s2, 1) + RowTotal(s1, s2, 2) + RowTotal(s1, s2, 3) == |s1|
  {
    RowTotalIsStartCount(s1, s2, 0);
    RowTotalIsStartCount(s1, s2, 1);
    RowTotalIsStartCount(s1, s2, 2);
    RowTotalIsStartCount(s1, s2, 3);
    LabelCountsCover(s1);
  }

  /** Cell (i, j) of the 4x4 block holds the co-count of regimes i and j. */
  ghost predicate BlockFilled(m: array2<Cell>, s1: seq<Record>, s2: seq<Record>)
    requires |s1| == |s2| && m.Length0 == 5 && m.Length1 == 5
    reads m
  {
    forall i, j :: 0 <= i < 4 && 0 <= j < 4 ==> m[i, j] == Num(CoCount(s1, s2, RegimeName(i), RegimeName(j)))
  }

  /** The last row holds the column totals of the block. */
  ghost predicate ColumnTotalsFilled(m: array2<Cell>, s1: seq<Record>, s2: seq<Record>)
    requires |s1| == |s2| && m.Length0 == 5 && m.Length1 == 5
    reads m
  {
    forall j :: 0 <= j < 4 ==> m[4, j] == Num(ColumnTotal(s1, s2, j))
  }

  /** The last column holds the row totals of the block. */
  ghost predicate RowTotalsFilled(m: array2<Cell>, s1: seq<Record>, s2: seq<Record>)
    requires |s1| == |s2| && m.Length0 == 5 && m.Length1 == 5
    reads m
  {
    forall i :: 0 <= i < 4 ==> m[i, 4] == Num(RowTotal(s1, s2, i))
  }

  /** The counting and totals of `get_migration_matrix` on two slices:
      `np.zeros((5, 5))`, the nested loops over the regimes, the NaN corner,
      then the column sums into the last row and the row sums into the last
      column. */
  method FillMigrationMatrix(s1: seq<Record>, s2: seq<Record>) returns (m: array2<Cell>)
    requires |s1| == |s2|
    ensures fresh(m) && m.Length0 == 5 && m.Length1 == 5
    ensures forall i, j :: 0 <= i < 4 && 0 <= j < 4 ==> m[i, j] == Num(CoCount(s1, s2, RegimeName(i), RegimeName(j)))
    ensures forall j :: 0 <= j < 4 ==> m[4, j] == Num(ColumnTotal(s1, s2, j))
    ensures forall i :: 0 <= i < 4 ==> m[i, 4] == Num(RowTotal(s1, s2, i))
    ensures m[4, 4] == Undefined
  {
    m := new Cell[5, 5]((i, j) => Num(0));
    FillBlock(m, s1, s2);
    m[4, 4] := Undefined;
    FillColumnTotals(m, s1, s2);
    FillRowTotals(m, s1, s2);
  }

  /** The nested loops over the regimes: cell (i, j) gets the co-count. */
  method FillBlock(m: array2<Cell>, s1: seq<Record>, s2: seq<Record>)
    requires |s1| == |s2| && m.Length0 == 5 && m.Length1 == 5
    modifies m
    ensures BlockFilled(m, s1, s2)
    ensures forall i, j :: 0 <= i < 5 && 0 <= j < 5 && (i == 4 || j == 4) ==> m[i, j] == old(m[i, j])
  {
    for i := 0 to 4
      invariant forall i', j' :: 0 <= i' < i && 0 <= j' < 4 ==>
        m[i', j'] == Num(CoCount(s1, s2, RegimeName(i'), RegimeName(j')))
      invariant forall i', j' :: 0 <= i' < 5 && 0 <= j' < 5 && (i' == 4 || j' == 4) ==> m[i', j'] == old(m[i', j'])
    {
      for j := 0 to 4
        invariant forall i', j' :: 0 <= i' < i && 0 <= j' < 4 ==>
          m[i', j'] == Num(CoCount(s1, s2, RegimeName(i'), RegimeName(j')))
        invariant forall j' :: 0 <= j' < j ==> m[i, j'] == Num(CoCount(s1, s2, RegimeName(i), RegimeName(j')))
        invariant forall i', j' :: 0 <= i' < 5 && 0 <= j' < 5 && (i' == 4 || j' == 4) ==> m[i', j'] == old(m[i', j'])
      {
        m[i, j] := Num(CoCount(s1, s2, RegimeName(i), RegimeName(j)));
      }
    }
  }

  /** `m[-1, :n] = np.sum(m[:n, :n], axis=0)`; the block and the corner
      stay. */
  method FillColumnTotals(m: array2<Cell>, s1: seq<Record>, s2: seq<Record>)
    requires |s1| == |s2| && m.Length0 == 5 && m.Length1 == 5
    requires BlockFilled(m, s1, s2)
    modifies m
    ensures BlockFilled(m, s1, s2) && ColumnTotalsFilled(m, s1, s2)
    ensures forall i :: 0 <= i < 5 ==> m[i, 4] == old(m[i, 4])
  {
    for j := 0 to 4
      invariant BlockFilled(m, s1, s2)
      invariant forall j' :: 0 <= j' < j ==> m[4, j'] == Num(ColumnTotal(s1, s2, j'))
      invariant forall i :: 0 <= i < 5 ==> m[i, 4] == old(m[i, 4])
    {
      m[4, j] := Num(m[0, j].n + m[1, j].n + m[2, j].n + m[3, j].n);
    }
  }

  /** `m[:n, -1] = np.sum(m[:n, :n], axis=1)`; the block, the totals row and
      the corner stay. */
  method FillRowTotals(m: array2<Cell>, s1: seq<Record>, s2: seq<Record>)
    requires |s1| == |s2| && m.Length0 == 5 && m.Length1 == 5
    requires BlockFilled(m, s1, s2) && ColumnTotalsFilled(m, s1, s2)
    modifies m
    ensures BlockFilled(m, s1, s2) && ColumnTotalsFilled(m, s1, s2) && RowTotalsFilled(m, s1, s2)
    ensures m[4, 4] == old(m[4, 4])
  {
    for i := 0 to 4
      invariant BlockFilled(m, s1, s2) && ColumnTotalsFilled(m, s1, s2)
      invariant forall i' :: 0 <= i' < i ==> m[i', 4] == Num(RowTotal(s1, s2, i'))
      invariant m[4, 4] == old(m[4, 4])
    {
      m[i, 4] := Num(m[i, 0].n + m[i, 1].n + m[i, 2].n + m[i, 3].n);
    }
  }

  /** `get_migration_matrix(start_year, end_year)`, given the loaded
      records. The two yearly slices are matched by position, so they must
      have the same length (numpy raises otherwise). */
  method GetMigrationMatrix(data: seq<Record>, startYear: int, endYear: int) returns (m: array2<Cell>)
    requires |FilterYear(data, startYear)| == |FilterYear(data, endYear)|
    ensures fresh(m) && m.Length0 == 5 && m.Length1 == 5
    ensures forall i, j :: 0 <= i < 4 && 0 <= j < 4 ==>
      m[i, j] == Num(BandCount(FilterYear(data, startYear), FilterYear(data, endYear), i, j))
    ensures forall j :: 0 <= j < 4 ==> m[4, j].Num? && m[4, j].n == BandTotal(FilterYear(data, endYear), j)
    ensures forall i :: 0 <= i < 4 ==> m[i, 4].Num? && m[i, 4].n == BandTotal(FilterYear(data, startYear), i)
    ensures m[0, 4].n + m[1, 4].n + m[2, 4].n + m[3, 4].n == |FilterYear(data, startYear)|
    ensures m[4, 4] == Undefined
  {
    var df1 := GetYearlyData(data, startYear);
    var df2 := GetYearlyData(data, endYear);
    m := FillMigrationMatrix(df1, df2);
    ghost var x1, x2 := FilterYear(data, startYear), FilterYear(data, endYear);
    ReclassifiedLabelled(x1);
    ReclassifiedLabelled(x2);
    forall i, j | 0 <= i < 4 && 0 <= j < 4
      ensures m[i, j] == Num(BandCount(x1, x2, i, j))
    {
      CoCountIsBandCount(x1, x2, i, j);
    }
    forall i | 0 <= i < 4 ensures m[i, 4].n == BandTotal(x1, i) {
      RowTotalIsStartCount(df1, df2, i);
      LabelCountIsBandTotal(x1, i);
    }
    forall j | 0 <= j < 4 ensures m[4, j].n == BandTotal(x2, j) {
      ColumnTotalIsEndCount(df1, df2, j);
      LabelCountIsBandTotal(x2, j);
    }
    BlockTotal(df1, df2);
  }

  // ------------------------------------------- counts in terms of bands

  /** The positions where the start index falls in band i and the end
      index in band j. */
  function BandCount(x1: seq<Record>, x2: seq<Record>, i: nat, j: nat): nat
    requires |x1| == |x2|
  {
    if x1 == [] then 0
    else
      var here := Band(ClassifyCell(x1[0].index)) == i && Band(ClassifyCell(x2[0].index)) == j;
      (if here then 1 else 0) + BandCount(x1[1..], x2[1..], i, j)
  }

  /** The positions whose index falls in band i. */
  function BandTotal(x: seq<Record>, i: nat): nat
  {
    if x == [] then 0 else (if Band(ClassifyCell(x[0].index)) == i then 1 else 0) + BandTotal(x[1..], i)
  }

  lemma ReclassifiedLabelled(x: seq<Record>)
    ensures AllLabelled(Reclassified(x))
  {
    forall p | 0 <= p < |x| ensures IsRegimeLabel(Reclassified(x)[p].regimeType) {
      ClassifyCellIsLabel(x[p].index);
    }
  }

  /** Comparing re-derived labels is comparing bands. */
  lemma LabelOfBand(v: Option<real>, i: nat)
    requires i < 4
    ensures Label(ClassifyCell(v)) == RegimeName(i) <==> Band(ClassifyCell(v)) == i
  {
    LabelInjective(ClassifyCell(v), FromBand(i));
    BandInjective(ClassifyCell(v), FromBand(i));
  }

  lemma {:induction false} CoCountIsBandCount(x1: seq<Record>, x2: seq<Record>, i: nat, j: nat)
    requires |x1| == |x2| && i < 4 && j < 4
    ensures CoCount(Reclassified(x1), Reclassified(x2), RegimeName(i), RegimeName(j)) == BandCount(x1, x2, i, j)
  {
    if x1 != [] {
      CoCountIsBandCount(x1[1..], x2[1..], i, j);
      assert Reclassified(x1)[1..] == Reclassified(x1[1..]);
      assert Reclassified(x2)[1..] == Reclassified(x2[1..]);
      LabelOfBand(x1[0].index, i);
      LabelOfBand(x2[0].index, j);
    }
  }

  lemma {:induction false} LabelCountIsBandTotal(x: seq<Record>, i: nat)
    requires i < 4
    ensures LabelCount(Reclassified(x), RegimeName(i)) == BandTotal(x, i)
  {
    if x != [] {
      LabelCountIsBandTotal(x[1..], i);
      assert Reclassified(x)[1..] == Reclassified(x[1..]);
      LabelOfBand(x[0].index, i);
    }
  }
}
