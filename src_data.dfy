/** src/data.py: the class `Data` that loads and reshapes the index table,
    and the module-level helpers that slice it by year, re-derive each
    year's regime type and join it with the boundary file. */
module SrcData {
  import opened Wrappers
  import opened Reshape
  import opened Query
  import opened Regime
  import opened Geo

  class Data {
    /** The long-format frame `self.df` (empty before `_setup_data`, where
        the source holds None). */
    var df: seq<Record>

    constructor ()
      ensures df == []
    {
      df := [];
    }

    /** `_setup_data`: drop every " rank" column, melt, convert the years.
        A header that is not an integer raises, and the frame is not
        replaced. */
    method SetupData(raw: WideTable) returns (err: Option<SetupError>)
      requires WellFormed(raw)
      modifies this
      ensures err.None? <==> SetupRankDropped(raw).Success?
      ensures err.None? ==> df == SetupRankDropped(raw).value
      ensures err.Some? ==> err.value == SetupRankDropped(raw).error && df == old(df)
    {
      var kept := DropRankColumns(raw);
      var long := Melt(kept);
      var converted := ConvertYears(long);
      match converted
      case Failure(e) =>
        err := Some(e);
      case Success(records) =>
        df := records;
        err := None;
    }

    function FilterByRegion(regions: seq<string>): (r: seq<Record>)
      reads this
      ensures forall x :: x in r <==> x in df && x.region in regions
      ensures regions == [] ==> r == []
    {
      FilterBy(RegionKey, regions)
    }

    function FilterByCountry(countries: seq<string>): (r: seq<Record>)
      reads this
      ensures forall x :: x in r <==> x in df && x.country in countries
      ensures countries == [] ==> r == []
    {
      FilterBy(CountryKey, countries)
    }

    function FilterByRegime(regimes: seq<string>): (r: seq<Record>)
      reads this
      ensures forall x :: x in r <==> x in df && x.regimeType in regimes
      ensures regimes == [] ==> r == []
    {
      FilterBy(RegimeTypeKey, regimes)
    }

    function FilterByYear(year: int): (r: seq<Record>)
      reads this
      ensures forall x :: x in r <==> x in df && x.year == year
    {
      FilterYear(df, year)
    }

    /** `_filter`: the records whose `key` column is in `values`. */
    function FilterBy(key: Key, values: seq<string>): (r: seq<Record>)
      reads this
      ensures forall x :: x in r <==> x in df && KeyValue(x, key) in values
      ensures values == [] ==> r == []
    {
      Filter(df, key, values)
    }

    function GetWorldAverage(): (rows: seq<YearAverage>)
      reads this
      ensures forall i, j :: 0 <= i < j < |rows| ==> rows[i].year < rows[j].year
      ensures forall y :: (exists i :: 0 <= i < |rows| && rows[i].year == y) <==> HasYear(df, y)
      ensures forall i :: 0 <= i < |rows| ==> rows[i].index == Mean(PresentValues(FilterYear(df, rows[i].year)))
    {
      WorldAverage(df)
    }

    function GetRegionAverages(): (rows: seq<GroupAverage>)
      reads this
      ensures forall i, j :: 0 <= i < j < |rows| ==> GroupLess(rows[i], rows[j])
      ensures forall g, y :: RowsHaveGroup(rows, g, y) <==> HasGroup(df, g, y)
      ensures forall i :: 0 <= i < |rows| ==> rows[i].index == GroupMean(df, rows[i].region, rows[i].year)
    {
      RegionAveragesSpec(df);
      RegionAverages(df)
    }
  }

  // ------------------------------------------------ regime type per year

  /** One record with its `RegimeType` re-derived from its own index. */
  function Reclassify(rec: Record): Record
  {
    rec.(regimeType := Label(ClassifyCell(rec.index)))
  }

  function Reclassified(records: seq<Record>): (r: seq<Record>)
    ensures |r| == |records| && forall i :: 0 <= i < |records| ==> r[i] == Reclassify(records[i])
  {
    seq(|records|, i requires 0 <= i < |records| => Reclassify(records[i]))
  }

  /** `df["RegimeType"] = df["DemocracyIndex"].apply(assign_regime_type)`,
      the column overwritten in place. */
  method RemapRegimeTypes(a: array<Record>)
    modifies a
    ensures a[..] == Reclassified(old(a[..]))
  {
    ghost var original := a[..];
    for i := 0 to a.Length
      invariant forall k :: 0 <= k < i ==> a[k] == Reclassify(original[k])
      invariant forall k :: i <= k < a.Length ==> a[k] == original[k]
    {
      a[i] := Reclassify(a[i]);
    }
    assert forall k :: 0 <= k < a.Length ==> a[..][k] == Reclassified(original)[k];
  }

  /** `get_yearly_data(year)`, given the loaded records. */
  method GetYearlyData(data: seq<Record>, year: int) returns (df: seq<Record>)
    ensures df == Reclassified(FilterYear(data, year))
  {
    var slice := FilterYear(data, year);
    var a := new Record[|slice|](i requires 0 <= i < |slice| => slice[i]);
    assert a[..] == slice;
    RemapRegimeTypes(a);
    df := a[..];
  }

  /** The yearly slice keeps the year's records one for one: only the
      regime type changes, and it becomes one of the four labels, the one of
      the record's own index. */
  lemma YearlyDataSpec(data: seq<Record>, year: int)
    ensures |Reclassified(FilterYear(data, year))| == |FilterYear(data, year)|
    ensures forall i :: 0 <= i < |FilterYear(data, year)| ==>
      var before, after := FilterYear(data, year)[i], Reclassified(FilterYear(data, year))[i];
      && after.year == year
      && after.region == before.region && after.country == before.country && after.index == before.index
      && ParseLabel(after.regimeType) == Some(ClassifyCell(before.index))
  {
    var slice := FilterYear(data, year);
    forall i | 0 <= i < |slice| ensures slice[i].year == year
      && ParseLabel(Reclassify(slice[i]).regimeType) == Some(ClassifyCell(slice[i].index))
    {
      assert slice[i] in slice;
      LabelParseRoundTrip(ClassifyCell(slice[i].index));
    }
  }

  /** Re-deriving the regime type of an already re-derived slice changes
      nothing: the classification depends on the retained index only. */
  lemma ReclassifiedIdempotent(records: seq<Record>)
    ensures Reclassified(Reclassified(records)) == Reclassified(records)
  {
  }

  // ------------------------------------------------ geographic slices

  /** `df[df["NAME"] != "Antarctica"]`. */
  function ExcludeAntarctica(rows: seq<MergedRow>): (r: seq<MergedRow>)
    ensures |r| <= |rows|
    ensures forall i :: 0 <= i < |r| ==> r[i].geo.name != "Antarctica"
  {
    if rows == [] then []
    else
      var rest := ExcludeAntarctica(rows[1..]);
      if rows[0].geo.name != "Antarctica" then [rows[0]] + rest else rest
  }

  /** `df[df["Year"] == year]` on the merged frame: rows without a record
      have a NaN year and never match. */
  function MergedYear(rows: seq<MergedRow>, year: int): (r: seq<MergedRow>)
    ensures |r| <= |rows|
    ensures forall i :: 0 <= i < |r| ==> r[i].record.Some? && r[i].record.value.year == year
  {
    if rows == [] then []
    else
      var rest := MergedYear(rows[1..], year);
      if rows[0].record.Some? && rows[0].record.value.year == year then [rows[0]] + rest else rest
  }

  /** Excluding Antarctica distributes over concatenation: the rows kept
      stay in their order, which the position-wise pairing of two years
      relies on. */
  lemma {:induction false} ExcludeAntarcticaConcat(a: seq<MergedRow>, b: seq<MergedRow>)
    ensures ExcludeAntarctica(a + b) == ExcludeAntarctica(a) + ExcludeAntarctica(b)
  {
    if a == [] {
      assert a + b == b;
    } else {
      ExcludeAntarcticaConcat(a[1..], b);
      ExcludeAntarcticaFirst(a, b);
    }
  }

  lemma ExcludeAntarcticaFirst(a: seq<MergedRow>, b: seq<MergedRow>)
    requires a != []
    requires ExcludeAntarctica(a[1..] + b) == ExcludeAntarctica(a[1..]) + ExcludeAntarctica(b)
    ensures ExcludeAntarctica(a + b) == ExcludeAntarctica(a) + ExcludeAntarctica(b)
  {
    var keep := if a[0].geo.name != "Antarctica" then [a[0]] else [];
    assert ExcludeAntarctica(a + b) == keep + ExcludeAntarctica(a[1..] + b) by {
      assert (a + b)[0] == a[0] && (a + b)[1..] == a[1..] + b;
    }
    assert ExcludeAntarctica(a) == keep + ExcludeAntarctica(a[1..]);
    AssociativeRows(keep, ExcludeAntarctica(a[1..]), ExcludeAntarctica(b));
  }

  /** Each row other than Antarctica's is kept as many times as it occurs. */
  lemma {:induction false} ExcludeAntarcticaCount(rows: seq<MergedRow>, m: MergedRow)
    ensures multiset(ExcludeAntarctica(rows))[m] == if m.geo.name != "Antarctica" then multiset(rows)[m] else 0
  {
    if rows != [] {
      ExcludeAntarcticaCount(rows[1..], m);
      assert rows == [rows[0]] + rows[1..];
    }
  }

  /** The rows kept are exactly those of a country other than Antarctica. */
  lemma ExcludeAntarcticaMembers(rows: seq<MergedRow>)
    ensures forall m :: m in ExcludeAntarctica(rows) <==> m in rows && m.geo.name != "Antarctica"
  {
    forall m | true
      ensures m in ExcludeAntarctica(rows) <==> m in rows && m.geo.name != "Antarctica"
    {
      ExcludeAntarcticaCount(rows, m);
    }
  }

  /** Selecting a year distributes over concatenation. */
  lemma {:induction false} MergedYearConcat(a: seq<MergedRow>, b: seq<MergedRow>, year: int)
    ensures MergedYear(a + b, year) == MergedYear(a, year) + MergedYear(b, year)
  {
    if a == [] {
      assert a + b == b;
    } else {
      MergedYearConcat(a[1..], b, year);
      MergedYearFirst(a, b, year);
    }
  }

  lemma MergedYearFirst(a: seq<MergedRow>, b: seq<MergedRow>, year: int)
    requires a != []
    requires MergedYear(a[1..] + b, year) == MergedYear(a[1..], year) + MergedYear(b, year)
    ensures MergedYear(a + b, year) == MergedYear(a, year) + MergedYear(b, year)
  {
    var keep := if a[0].record.Some? && a[0].record.value.year == year then [a[0]] else [];
    assert MergedYear(a + b, year) == keep + MergedYear(a[1..] + b, year) by {
      assert (a + b)[0] == a[0] && (a + b)[1..] == a[1..] + b;
    }
    assert MergedYear(a, year) == keep + MergedYear(a[1..], year);
    AssociativeRows(keep, MergedYear(a[1..], year), MergedYear(b, year));
  }

  /** Each row of the year is kept as many times as it occurs. */
  lemma {:induction false} MergedYearCount(rows: seq<MergedRow>, year: int, m: MergedRow)
    ensures multiset(MergedYear(rows, year))[m] ==
      if m.record.Some? && m.record.value.year == year then multiset(rows)[m] else 0
  {
    if rows != [] {
      MergedYearCount(rows[1..], year, m);
      assert rows == [rows[0]] + rows[1..];
    }
  }

  /** The rows kept are exactly those joined with a record of the year. */
  lemma MergedYearMembers(rows: seq<MergedRow>, year: int)
    ensures forall m :: m in MergedYear(rows, year) <==>
      m in rows && m.record.Some? && m.record.value.year == year
  {
    forall m | true
      ensures m in MergedYear(rows, year) <==> m in rows && m.record.Some? && m.record.value.year == year
    {
      MergedYearCount(rows, year, m);
    }
  }

  lemma AssociativeRows(x: seq<MergedRow>, y: seq<MergedRow>, z: seq<MergedRow>)
    ensures x + (y + z) == (x + y) + z
  {
  }

  /** The merged rows of one year, Antarctica excluded. */
  function GeoSlice(data: seq<Record>, shapes: seq<GeoRow>, year: int): seq<MergedRow>
  {
    MergedYear(ExcludeAntarctica(LeftJoin(Renamed(shapes), data)), year)
  }

  function ReclassifyRow(m: MergedRow): MergedRow
  {
    match m.record
    case None => m
    case Some(rec) => m.(record := Some(Reclassify(rec)))
  }

  function ReclassifiedRows(rows: seq<MergedRow>): (r: seq<MergedRow>)
    ensures |r| == |rows| && forall i :: 0 <= i < |rows| ==> r[i] == ReclassifyRow(rows[i])
  {
    seq(|rows|, i requires 0 <= i < |rows| => ReclassifyRow(rows[i]))
  }

  /** The same in-place column overwrite on merged rows. */
  method RemapRowRegimeTypes(a: array<MergedRow>)
    modifies a
    ensures a[..] == ReclassifiedRows(old(a[..]))
  {
    ghost var original := a[..];
    for i := 0 to a.Length
      invariant forall k :: 0 <= k < i ==> a[k] == ReclassifyRow(original[k])
      invariant forall k :: i <= k < a.Length ==> a[k] == original[k]
    {
      a[i] := ReclassifyRow(a[i]);
    }
    assert forall k :: 0 <= k < a.Length ==> a[..][k] == ReclassifiedRows(original)[k];
  }

  /** `get_yearly_geographic_data(year)`. */
  method GetYearlyGeographicData(data: seq<Record>, shapes: seq<GeoRow>, year: int)
    returns (df: seq<MergedRow>)
    ensures df == ReclassifiedRows(GeoSlice(data, shapes, year))
  {
    var merged := GetMergedDataframe(data, shapes);
    var slice := MergedYear(ExcludeAntarctica(merged), year);
    var a := new MergedRow[|slice|](i requires 0 <= i < |slice| => slice[i]);
    assert a[..] == slice;
    RemapRowRegimeTypes(a);
    df := a[..];
  }

  /** Every row of a geographic year slice is a boundary row other than
      Antarctica, joined with a record of that year and that country. */
  lemma GeoSliceSpec(data: seq<Record>, shapes: seq<GeoRow>, year: int)
    ensures forall m :: m in GeoSlice(data, shapes, year) ==>
      && m.geo in Renamed(shapes) && m.geo.name != "Antarctica"
      && m.record.Some? && m.record.value in data
      && m.record.value.year == year && m.record.value.country == m.geo.name
  {
    LeftJoinSound(Renamed(shapes), data);
    ExcludeAntarcticaMembers(LeftJoin(Renamed(shapes), data));
    MergedYearMembers(ExcludeAntarctica(LeftJoin(Renamed(shapes), data)), year);
  }

  // ------------------------------------------------ index change

  /** NaN-propagating subtraction. */
  function Subtract(a: Option<real>, b: Option<real>): Option<real>
  {
    if a.Some? && b.Some? then Some(a.value - b.value) else None
  }

  /** A row of `get_index_change_geographic_data`: an end-year row with its
      `IndexChange` column. */
  datatype ChangeRow = ChangeRow(row: MergedRow, indexChange: Option<real>)

  /** `get_index_change_geographic_data(start_year, end_year)`: the end-year
      slice with, at each position, the end value minus the start value at
      the same position. */
  method GetIndexChangeGeographicData(data: seq<Record>, shapes: seq<GeoRow>, startYear: int, endYear: int)
    returns (df: seq<ChangeRow>)
    requires |GeoSlice(data, shapes, startYear)| == |GeoSlice(data, shapes, endYear)|
    ensures |df| == |GeoSlice(data, shapes, endYear)|
    ensures forall p :: 0 <= p < |df| ==>
      var e, s := GeoSlice(data, shapes, endYear)[p], GeoSlice(data, shapes, startYear)[p];
      df[p].row == e && df[p].indexChange == Subtract(e.record.value.index, s.record.value.index)
  {
    var merged := GetMergedDataframe(data, shapes);
    var rows := ExcludeAntarctica(merged);
    var ends := MergedYear(rows, endYear);
    var starts := MergedYear(rows, startYear);
    df := seq(|ends|, p requires 0 <= p < |ends| =>
      ChangeRow(ends[p], Subtract(ends[p].record.value.index, starts[p].record.value.index)));
  }

  /** The change undoes the subtraction: where both values are present, the
      start value plus the change is the end value; where either is NaN, so
      is the change. */
  lemma SubtractInverse(e: Option<real>, s: Option<real>)
    ensures Subtract(e, s).Some? <==> e.Some? && s.Some?
    ensures Subtract(e, s).Some? ==> s.value + Subtract(e, s).value == e.value
  {
  }
}
