/** The read-only queries the three data classes share: the membership
    filters (`_filter`, `filter_by_year`), and the grouped means
    (`get_world_average`, `get_region_averages`). */
module Query {
  import opened Wrappers
  import opened Reshape

  // ----------------------------------------------------------------- filters

  /** The categorical columns `_filter` is called on. */
  datatype Key = RegionKey | CountryKey | RegimeTypeKey

  function KeyValue(rec: Record, key: Key): string
  {
    match key
    case RegionKey => rec.region
    case CountryKey => rec.country
    case RegimeTypeKey => rec.regimeType
  }

  /** `df[df[key].isin(values)]`: the records whose key is one of `values`,
      in their original order. */
  function Filter(records: seq<Record>, key: Key, values: seq<string>): (r: seq<Record>)
    ensures |r| <= |records|
    ensures forall x :: x in r <==> x in records && KeyValue(x, key) in values
    ensures values == [] ==> r == []
  {
    if records == [] then []
    else
      var rest := Filter(records[1..], key, values);
      assert forall x :: x in records <==> x == records[0] || x in records[1..];
      if KeyValue(records[0], key) in values then [records[0]] + rest else rest
  }

  /** `df[df["Year"] == year]`. */
  function FilterYear(records: seq<Record>, year: int): (r: seq<Record>)
    ensures |r| <= |records|
    ensures forall x :: x in r <==> x in records && x.year == year
  {
    if records == [] then []
    else
      var rest := FilterYear(records[1..], year);
      assert forall x :: x in records <==> x == records[0] || x in records[1..];
      if records[0].year == year then [records[0]] + rest else rest
  }

  /** Filtering distributes over concatenation: it keeps the relative order
      of the records it keeps. */
  lemma {:induction false} FilterConcat(a: seq<Record>, b: seq<Record>, key: Key, values: seq<string>)
    ensures Filter(a + b, key, values) == Filter(a, key, values) + Filter(b, key, values)
  {
    if a != [] {
      var keep := if KeyValue(a[0], key) in values then [a[0]] else [];
      assert (a + b)[0] == a[0] && (a + b)[1..] == a[1..] + b;
      assert Filter(a + b, key, values) == keep + Filter(a[1..] + b, key, values);
      assert Filter(a, key, values) == keep + Filter(a[1..], key, values);
      FilterConcat(a[1..], b, key, values);
      assert keep + (Filter(a[1..], key, values) + Filter(b, key, values))
        == (keep + Filter(a[1..], key, values)) + Filter(b, key, values);
    } else {
      assert a + b == b;
    }
  }

  /** Each record is kept as many times as it occurs, or dropped entirely. */
  lemma {:induction false} FilterCount(records: seq<Record>, key: Key, values: seq<string>, x: Record)
    ensures multiset(Filter(records, key, values))[x] ==
      if KeyValue(x, key) in values then multiset(records)[x] else 0
  {
    if records != [] {
      FilterCount(records[1..], key, values, x);
      assert records == [records[0]] + records[1..];
    }
  }

  /** Filtering twice by the same values is filtering once. */
  lemma {:induction false} FilterIdempotent(records: seq<Record>, key: Key, values: seq<string>)
    ensures Filter(Filter(records, key, values), key, values) == Filter(records, key, values)
  {
    if records != [] {
      FilterIdempotent(records[1..], key, values);
    }
  }

  lemma {:induction false} FilterYearConcat(a: seq<Record>, b: seq<Record>, year: int)
    ensures FilterYear(a + b, year) == FilterYear(a, year) + FilterYear(b, year)
  {
    if a != [] {
      var keep := if a[0].year == year then [a[0]] else [];
      assert (a + b)[0] == a[0] && (a + b)[1..] == a[1..] + b;
      assert FilterYear(a + b, year) == keep + FilterYear(a[1..] + b, year);
      assert FilterYear(a, year) == keep + FilterYear(a[1..], year);
      FilterYearConcat(a[1..], b, year);
      assert keep + (FilterYear(a[1..], year) + FilterYear(b, year))
        == (keep + FilterYear(a[1..], year)) + FilterYear(b, year);
    } else {
      assert a + b == b;
    }
  }

  // ------------------------------------------------------------------ means

  /** The present `DemocracyIndex` values, in order; NaN cells are skipped as
      pandas' `mean` skips them. */
  function PresentValues(records: seq<Record>): (xs: seq<real>)
    ensures |xs| <= |records|
  {
    if records == [] then []
    else (if records[0].index.Some? then [records[0].index.value] else []) + PresentValues(records[1..])
  }

  /** A single record contributes its index, or nothing when it is NaN. */
  lemma PresentValuesOne(r: Record)
    ensures PresentValues([r]) == if r.index.Some? then [r.index.value] else []
  {
    assert [r][1..] == [];
  }

  /** The values of a concatenation are the values of its parts, in order. */
  lemma {:induction false} PresentValuesConcat(a: seq<Record>, b: seq<Record>)
    ensures PresentValues(a + b) == PresentValues(a) + PresentValues(b)
  {
    if a == [] {
      assert a + b == b;
    } else {
      PresentValuesConcat(a[1..], b);
      PresentValuesFirst(a, b);
    }
  }

  lemma PresentValuesFirst(a: seq<Record>, b: seq<Record>)
    requires a != []
    requires PresentValues(a[1..] + b) == PresentValues(a[1..]) + PresentValues(b)
    ensures PresentValues(a + b) == PresentValues(a) + PresentValues(b)
  {
    var v := if a[0].index.Some? then [a[0].index.value] else [];
    assert PresentValues(a + b) == v + PresentValues(a[1..] + b) by {
      assert (a + b)[0] == a[0] && (a + b)[1..] == a[1..] + b;
    }
    assert PresentValues(a) == v + PresentValues(a[1..]);
    Associative(v, PresentValues(a[1..]), PresentValues(b));
  }

  lemma Associative(x: seq<real>, y: seq<real>, z: seq<real>)
    ensures x + (y + z) == (x + y) + z
  {
  }

  /** With no NaN cell, the values are the indices of the records, one for
      one and in order. */
  lemma {:induction false} PresentValuesAllPresent(records: seq<Record>)
    requires forall i :: 0 <= i < |records| ==> records[i].index.Some?
    ensures |PresentValues(records)| == |records|
    ensures forall i :: 0 <= i < |records| ==> PresentValues(records)[i] == records[i].index.value
  {
    if records != [] {
      assert forall i :: 0 <= i < |records| - 1 ==> records[1..][i] == records[i + 1];
      PresentValuesAllPresent(records[1..]);
    }
  }

  function Sum(xs: seq<real>): real
  {
    if xs == [] then 0.0 else xs[0] + Sum(xs[1..])
  }

  /** The mean of the present values; NaN (None) when there is none. */
  function Mean(xs: seq<real>): Option<real>
  {
    if xs == [] then None else Some(Sum(xs) / |xs| as real)
  }

  lemma {:induction false} SumBounds(xs: seq<real>, lo: real, hi: real)
    requires forall i :: 0 <= i < |xs| ==> lo <= xs[i] <= hi
    ensures |xs| as real * lo <= Sum(xs) <= |xs| as real * hi
  {
    if xs != [] {
      SumBounds(xs[1..], lo, hi);
    }
  }

  /** A mean lies between the smallest and the largest value averaged. */
  lemma MeanBounds(xs: seq<real>, lo: real, hi: real)
    requires xs != []
    requires forall i :: 0 <= i < |xs| ==> lo <= xs[i] <= hi
    ensures Mean(xs).Some? && lo <= Mean(xs).value <= hi
  {
    SumBounds(xs, lo, hi);
    var n := |xs| as real;
    assert Sum(xs) / n >= lo by {
      assert Sum(xs) >= n * lo;
    }
    assert Sum(xs) / n <= hi by {
      assert Sum(xs) <= n * hi;
    }
  }

  /** Every present value of the records lies in [lo, hi]. */
  ghost predicate IndicesWithin(records: seq<Record>, lo: real, hi: real)
  {
    forall i :: 0 <= i < |records| && records[i].index.Some? ==> lo <= records[i].index.value <= hi
  }

  lemma {:induction false} PresentValuesWithin(records: seq<Record>, lo: real, hi: real)
    requires IndicesWithin(records, lo, hi)
    ensures forall i :: 0 <= i < |PresentValues(records)| ==> lo <= PresentValues(records)[i] <= hi
  {
    if records != [] {
      PresentValuesWithin(records[1..], lo, hi);
    }
  }

  lemma {:induction false} FilterYearWithin(records: seq<Record>, year: int, lo: real, hi: real)
    requires IndicesWithin(records, lo, hi)
    ensures IndicesWithin(FilterYear(records, year), lo, hi)
  {
    var r := FilterYear(records, year);
    forall i | 0 <= i < |r| && r[i].index.Some? ensures lo <= r[i].index.value <= hi {
      assert r[i] in records;
    }
  }

  lemma {:induction false} FilterWithin(records: seq<Record>, key: Key, values: seq<string>, lo: real, hi: real)
    requires IndicesWithin(records, lo, hi)
    ensures IndicesWithin(Filter(records, key, values), lo, hi)
  {
    var r := Filter(records, key, values);
    forall i | 0 <= i < |r| && r[i].index.Some? ensures lo <= r[i].index.value <= hi {
      assert r[i] in records;
    }
  }

  // --------------------------------------------------------- sorted groups

  /** Strictly increasing: sorted, and no key twice. */
  predicate Increasing(xs: seq<int>)
  {
    forall i, j :: 0 <= i < j < |xs| ==> xs[i] < xs[j]
  }

  /** Putting a smaller year in front keeps a list increasing. */
  lemma ConsIncreasing(x: int, xs: seq<int>)
    requires Increasing(xs) && forall z :: z in xs ==> x < z
    ensures Increasing([x] + xs)
  {
    var r := [x] + xs;
    forall i, j | 0 <= i < j < |r|
      ensures r[i] < r[j]
    {
      assert r[j] == xs[j - 1] && xs[j - 1] in xs;
      if i > 0 {
        assert r[i] == xs[i - 1];
      }
    }
  }

  function InsertYear(xs: seq<int>, y: int): (r: seq<int>)
    requires Increasing(xs)
    ensures Increasing(r)
    ensures forall z :: z in r <==> z in xs || z == y
  {
    if xs == [] then [y]
    else if y < xs[0] then
      assert forall i :: 0 <= i < |xs| ==> xs[0] <= xs[i];
      ConsIncreasing(y, xs);
      [y] + xs
    else if y == xs[0] then xs
    else
      var rest := InsertYear(xs[1..], y);
      assert forall z :: z in xs[1..] ==> xs[0] < z;
      assert forall z :: z in rest ==> xs[0] < z;
      assert xs == [xs[0]] + xs[1..];
      ConsIncreasing(xs[0], rest);
      [xs[0]] + rest
  }

  ghost predicate HasYear(records: seq<Record>, y: int)
  {
    exists i :: 0 <= i < |records| && records[i].year == y
  }

  /** The distinct years of the records in ascending order: the group keys
      of `groupby("Year")`, which sorts them. */
  function DistinctYears(records: seq<Record>): (ys: seq<int>)
    ensures Increasing(ys)
    ensures forall y :: y in ys <==> HasYear(records, y)
  {
    if records == [] then []
    else
      var rest := DistinctYears(records[1..]);
      assert forall y :: HasYear(records, y) <==> y == records[0].year || HasYear(records[1..], y) by {
        forall y | HasYear(records[1..], y) ensures HasYear(records, y) {
          var i :| 0 <= i < |records[1..]| && records[1..][i].year == y;
          assert records[i + 1].year == y;
        }
        forall y | HasYear(records, y) && y != records[0].year ensures HasYear(records[1..], y) {
          var i :| 0 <= i < |records| && records[i].year == y;
          assert records[1..][i - 1].year == y;
        }
      }
      InsertYear(rest, records[0].year)
  }

  /** One row of `get_world_average`. */
  datatype YearAverage = YearAverage(year: int, index: Option<real>)

  /** The mean of one year's present index values. */
  function YearMean(records: seq<Record>, year: int): Option<real>
  {
    Mean(PresentValues(FilterYear(records, year)))
  }

  /** `groupby("Year")["DemocracyIndex"].mean().reset_index()`. */
  function WorldAverage(records: seq<Record>): (rows: seq<YearAverage>)
    ensures forall i, j :: 0 <= i < j < |rows| ==> rows[i].year < rows[j].year
    ensures forall y :: (exists i :: 0 <= i < |rows| && rows[i].year == y) <==> HasYear(records, y)
    ensures forall i :: 0 <= i < |rows| ==> rows[i].index == YearMean(records, rows[i].year)
  {
    var ys := DistinctYears(records);
    var rows := seq(|ys|, i requires 0 <= i < |ys| => YearAverage(ys[i], YearMean(records, ys[i])));
    assert forall y :: (exists i :: 0 <= i < |rows| && rows[i].year == y) <==> y in ys by {
      forall y | y in ys ensures exists i :: 0 <= i < |rows| && rows[i].year == y {
        var i :| 0 <= i < |ys| && ys[i] == y;
        assert rows[i].year == y;
      }
    }
    rows
  }

  /** When every present index lies in [lo, hi] (the index scale is 0 to
      10), so does every world average. */
  lemma WorldAverageWithin(records: seq<Record>, lo: real, hi: real)
    requires IndicesWithin(records, lo, hi)
    ensures forall i :: 0 <= i < |WorldAverage(records)| && WorldAverage(records)[i].index.Some? ==>
      lo <= WorldAverage(records)[i].index.value <= hi
  {
    var rows := WorldAverage(records);
    forall i | 0 <= i < |rows| && rows[i].index.Some?
      ensures lo <= rows[i].index.value <= hi
    {
      var slice := FilterYear(records, rows[i].year);
      FilterYearWithin(records, rows[i].year, lo, hi);
      PresentValuesWithin(slice, lo, hi);
      MeanBounds(PresentValues(slice), lo, hi);
    }
  }

  // ------------------------------------------------------ region averages

  /** Python's string order: code point by code point, a proper prefix
      first. The categories of `astype("category")` are sorted this way. */
  predicate LexLess(a: string, b: string)
    decreases |a|
  {
    if a == [] then b != []
    else if b == [] then false
    else if a[0] != b[0] then a[0] < b[0]
    else LexLess(a[1..], b[1..])
  }

  lemma {:induction false} LexIrreflexive(a: string)
    ensures !LexLess(a, a)
    decreases |a|
  {
    if a != [] {
      LexIrreflexive(a[1..]);
    }
  }

  lemma {:induction false} LexTransitive(a: string, b: string, c: string)
    requires LexLess(a, b) && LexLess(b, c)
    ensures LexLess(a, c)
    decreases |a|
  {
    if a != [] && b != [] && c != [] && a[0] == b[0] && b[0] == c[0] {
      LexTransitive(a[1..], b[1..], c[1..]);
    }
  }

  lemma {:induction false} LexTotal(a: string, b: string)
    requires a != b
    ensures LexLess(a, b) || LexLess(b, a)
    decreases |a|
  {
    if a != [] && b != [] && a[0] == b[0] {
      assert a == [a[0]] + a[1..] && b == [b[0]] + b[1..];
      LexTotal(a[1..], b[1..]);
    }
  }

  predicate RegionsIncreasing(gs: seq<string>)
  {
    forall i, j :: 0 <= i < j < |gs| ==> LexLess(gs[i], gs[j])
  }

  function InsertRegion(gs: seq<string>, g: string): (r: seq<string>)
    requires RegionsIncreasing(gs)
    ensures RegionsIncreasing(r)
    ensures forall z :: z in r <==> z in gs || z == g
  {
    if gs == [] then [g]
    else if LexLess(g, gs[0]) then
      assert forall j :: 0 <= j < |gs| ==> LexLess(g, gs[j]) by {
        forall j | 0 < j < |gs| ensures LexLess(g, gs[j]) {
          LexTransitive(g, gs[0], gs[j]);
        }
      }
      [g] + gs
    else if g == gs[0] then gs
    else
      LexTotal(g, gs[0]);
      var rest := InsertRegion(gs[1..], g);
      assert forall z :: z in gs[1..] ==> LexLess(gs[0], z);
      assert forall z :: z in gs <==> z == gs[0] || z in gs[1..];
      [gs[0]] + rest
  }

  ghost predicate HasRegion(records: seq<Record>, g: string)
  {
    exists i :: 0 <= i < |records| && records[i].region == g
  }

  /** The distinct regions of the records in category order. */
  function DistinctRegions(records: seq<Record>): (gs: seq<string>)
    ensures RegionsIncreasing(gs)
    ensures forall g :: g in gs <==> HasRegion(records, g)
  {
    if records == [] then []
    else
      var rest := DistinctRegions(records[1..]);
      assert forall g :: HasRegion(records, g) <==> g == records[0].region || HasRegion(records[1..], g) by {
        forall g | HasRegion(records[1..], g) ensures HasRegion(records, g) {
          var i :| 0 <= i < |records[1..]| && records[1..][i].region == g;
          assert records[i + 1].region == g;
        }
        forall g | HasRegion(records, g) && g != records[0].region ensures HasRegion(records[1..], g) {
          var i :| 0 <= i < |records| && records[i].region == g;
          assert records[1..][i - 1].region == g;
        }
      }
      InsertRegion(rest, records[0].region)
  }

  /** One row of `get_region_averages`. */
  datatype GroupAverage = GroupAverage(region: string, year: int, index: Option<real>)

  /** The records of one region. */
  function RegionSlice(records: seq<Record>, g: string): seq<Record>
  {
    Filter(records, RegionKey, [g])
  }

  /** The mean of the present index values of one (region, year) group. */
  function GroupMean(records: seq<Record>, g: string, year: int): Option<real>
  {
    YearMean(RegionSlice(records, g), year)
  }

  /** The rows of one region, one per year it has, years ascending. */
  function RegionBlock(records: seq<Record>, g: string): (block: seq<GroupAverage>)
    ensures forall i :: 0 <= i < |block| ==> block[i].region == g
  {
    var ys := DistinctYears(RegionSlice(records, g));
    seq(|ys|, i requires 0 <= i < |ys| => GroupAverage(g, ys[i], GroupMean(records, g, ys[i])))
  }

  function RegionRows(records: seq<Record>, gs: seq<string>): (rows: seq<GroupAverage>)
    ensures forall i :: 0 <= i < |rows| ==> rows[i].region in gs
  {
    if gs == [] then []
    else
      var rest := RegionRows(records, gs[1..]);
      assert forall i :: 0 <= i < |rest| ==> rest[i].region in gs;
      RegionBlock(records, gs[0]) + rest
  }

  /** `groupby(["Region", "Year"], observed=True)["DemocracyIndex"].mean()
      .reset_index()`: one row per (region, year) group that occurs, ordered
      by region category and then year. */
  function RegionAverages(records: seq<Record>): seq<GroupAverage>
  {
    RegionRows(records, DistinctRegions(records))
  }

  /** The (region, year) order of the grouped result. */
  predicate GroupLess(a: GroupAverage, b: GroupAverage)
  {
    LexLess(a.region, b.region) || (a.region == b.region && a.year < b.year)
  }

  ghost predicate HasGroup(records: seq<Record>, g: string, y: int)
  {
    exists i :: 0 <= i < |records| && records[i].region == g && records[i].year == y
  }

  lemma RegionSliceYears(records: seq<Record>, g: string, y: int)
    ensures HasYear(RegionSlice(records, g), y) <==> HasGroup(records, g, y)
  {
    var slice := RegionSlice(records, g);
    if HasYear(slice, y) {
      var i :| 0 <= i < |slice| && slice[i].year == y;
      assert slice[i] in records;
      var k :| 0 <= k < |records| && records[k] == slice[i];
    }
    if HasGroup(records, g, y) {
      var k :| 0 <= k < |records| && records[k].region == g && records[k].year == y;
      assert records[k] in slice;
      var i :| 0 <= i < |slice| && slice[i] == records[k];
    }
  }

  lemma {:induction false} RegionRowsSorted(records: seq<Record>, gs: seq<string>)
    requires RegionsIncreasing(gs)
    ensures forall i, j :: 0 <= i < j < |RegionRows(records, gs)| ==>
      GroupLess(RegionRows(records, gs)[i], RegionRows(records, gs)[j])
  {
    if gs != [] {
      var block := RegionBlock(records, gs[0]);
      var rest := RegionRows(records, gs[1..]);
      var rows := RegionRows(records, gs);
      RegionRowsSorted(records, gs[1..]);
      assert rows == block + rest;
      var ys := DistinctYears(RegionSlice(records, gs[0]));
      forall i, j | 0 <= i < j < |rows| ensures GroupLess(rows[i], rows[j]) {
        if j < |block| {
          assert rows[i].year == ys[i] && rows[j].year == ys[j];
        } else if i < |block| {
          assert rest[j - |block|].region in gs[1..];
        } else {
          assert rows[i] == rest[i - |block|] && rows[j] == rest[j - |block|];
        }
      }
    }
  }

  ghost predicate RowsHaveGroup(rows: seq<GroupAverage>, g: string, y: int)
  {
    exists i :: 0 <= i < |rows| && rows[i].region == g && rows[i].year == y
  }

  lemma BlockGroups(records: seq<Record>, g0: string, g: string, y: int)
    ensures RowsHaveGroup(RegionBlock(records, g0), g, y) <==> g == g0 && HasGroup(records, g, y)
  {
    var block := RegionBlock(records, g0);
    var ys := DistinctYears(RegionSlice(records, g0));
    RegionSliceYears(records, g0, y);
    if RowsHaveGroup(block, g, y) {
      var i :| 0 <= i < |block| && block[i].region == g && block[i].year == y;
      assert ys[i] == y && y in ys;
    }
    if g == g0 && HasGroup(records, g, y) {
      assert y in ys;
      var i :| 0 <= i < |ys| && ys[i] == y;
      assert block[i].region == g && block[i].year == y;
    }
  }

  lemma ConcatGroups(a: seq<GroupAverage>, b: seq<GroupAverage>, g: string, y: int)
    ensures RowsHaveGroup(a + b, g, y) <==> RowsHaveGroup(a, g, y) || RowsHaveGroup(b, g, y)
  {
    if RowsHaveGroup(a + b, g, y) {
      var i :| 0 <= i < |a + b| && (a + b)[i].region == g && (a + b)[i].year == y;
      if i >= |a| {
        assert b[i - |a|] == (a + b)[i];
      }
    }
    if RowsHaveGroup(a, g, y) {
      var i :| 0 <= i < |a| && a[i].region == g && a[i].year == y;
      assert (a + b)[i] == a[i];
    }
    if RowsHaveGroup(b, g, y) {
      var i :| 0 <= i < |b| && b[i].region == g && b[i].year == y;
      assert (a + b)[|a| + i] == b[i];
    }
  }

  lemma {:induction false} RegionRowsGroups(records: seq<Record>, gs: seq<string>, g: string, y: int)
    ensures RowsHaveGroup(RegionRows(records, gs), g, y) <==> g in gs && HasGroup(records, g, y)
  {
    if gs != [] {
      RegionRowsGroups(records, gs[1..], g, y);
      BlockGroups(records, gs[0], g, y);
      ConcatGroups(RegionBlock(records, gs[0]), RegionRows(records, gs[1..]), g, y);
      assert g in gs <==> g == gs[0] || g in gs[1..];
    }
  }

  lemma {:induction false} RegionRowsValues(records: seq<Record>, gs: seq<string>)
    ensures forall i :: 0 <= i < |RegionRows(records, gs)| ==>
      RegionRows(records, gs)[i].index ==
        GroupMean(records, RegionRows(records, gs)[i].region, RegionRows(records, gs)[i].year)
  {
    if gs != [] {
      RegionRowsValues(records, gs[1..]);
      var block := RegionBlock(records, gs[0]);
      var rest := RegionRows(records, gs[1..]);
      var rows := RegionRows(records, gs);
      assert rows == block + rest;
      forall i | 0 <= i < |rows| ensures rows[i].index == GroupMean(records, rows[i].region, rows[i].year) {
        if i >= |block| {
          assert rows[i] == rest[i - |block|];
        }
      }
    }
  }

  /** `get_region_averages` yields the groups in (region, year) order, hence
      no group twice; a (region, year) row exists exactly when some record
      has that region and year (`observed=True`); and each row holds the
      mean of its group's present values. */
  lemma RegionAveragesSpec(records: seq<Record>)
    ensures forall i, j :: 0 <= i < j < |RegionAverages(records)| ==>
      GroupLess(RegionAverages(records)[i], RegionAverages(records)[j])
    ensures forall g, y :: RowsHaveGroup(RegionAverages(records), g, y) <==> HasGroup(records, g, y)
    ensures forall i :: 0 <= i < |RegionAverages(records)| ==>
      RegionAverages(records)[i].index ==
        GroupMean(records, RegionAverages(records)[i].region, RegionAverages(records)[i].year)
  {
    var gs := DistinctRegions(records);
    assert RegionAverages(records) == RegionRows(records, gs);
    RegionRowsSorted(records, gs);
    RegionRowsValues(records, gs);
    forall g, y ensures RowsHaveGroup(RegionAverages(records), g, y) <==> HasGroup(records, g, y) {
      RegionRowsGroups(records, gs, g, y);
      if HasGroup(records, g, y) {
        var k :| 0 <= k < |records| && records[k].region == g && records[k].year == y;
        assert HasRegion(records, g);
      }
    }
  }
}
