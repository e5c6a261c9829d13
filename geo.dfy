/** The Geo-Joiner of `get_merged_dataframe` (src/data.py): a fixed alias
    table renames the boundary file's country names to the index's
    spellings, then the boundary rows are left-joined onto the index records
    by name. */
module Geo {
  import opened Wrappers
  import opened Reshape
  import opened Query

  /** A country outline as rings of (longitude, latitude) points. */
  type Geometry = seq<seq<(real, real)>>

  /** A row of the country-boundary file: the display name (`NAME`), the
      ISO-3166 alpha-3 code and the geometry, which the model only carries. */
  datatype GeoRow = GeoRow(name: string, isoA3: string, geometry: Geometry)

  /** The names `replace` looks for ... */
  const ToReplace: seq<string> := [
    "Bosnia and Herz.", "C\U{00F4}te d'Ivoire", "United States of America",
    "Central African Rep.", "Eq. Guinea", "Congo", "eSwatini",
    "Czechia", "Dominican Rep.", "Dem. Rep. Congo", "Timor-Leste",
    "Greenland", "Falkland Is."]

  /** ... and the name each becomes, at the same position. */
  const Replacement: seq<string> := [
    "Bosnia and Herzegovina", "Ivory Coast", "United States",
    "Central African Republic", "Equatorial Guinea",
    "Republic of the Congo", "Eswatini", "Czech Republic",
    "Dominican Republic", "Democratic Republic of the Congo",
    "East Timor", "Denmark", "Argentina"]

  /** The first position of `x` in `xs`. */
  function IndexOf(xs: seq<string>, x: string): (k: nat)
    requires x in xs
    ensures k < |xs| && xs[k] == x
    ensures forall i :: 0 <= i < k ==> xs[i] != x
  {
    if xs[0] == x then 0 else 1 + IndexOf(xs[1..], x)
  }

  /** The whole-value rename `replace(to_replace=ToReplace, value=Replacement)`
      applies to one cell. */
  function Alias(cell: string): string
  {
    if cell in ToReplace then Replacement[IndexOf(ToReplace, cell)] else cell
  }

  /** The table has 13 pairs, no name is listed twice, and no replacement is
      itself a name to replace, so applying the pairs one after another or
      all at once gives the same result. */
  lemma AliasTableShape()
    ensures |ToReplace| == |Replacement| == 13
    ensures forall i, j :: 0 <= i < j < |ToReplace| ==> ToReplace[i] != ToReplace[j]
    ensures forall i, j :: 0 <= i < |Replacement| && 0 <= j < |ToReplace| ==> Replacement[i] != ToReplace[j]
  {
  }

  /** Each listed name becomes the name at the same position; every other
      name is left as it is. */
  lemma AliasSpec(cell: string)
    ensures forall i :: 0 <= i < |ToReplace| && cell == ToReplace[i] ==> Alias(cell) == Replacement[i]
    ensures cell !in ToReplace ==> Alias(cell) == cell
  {
    AliasTableShape();
    if cell in ToReplace {
      var k := IndexOf(ToReplace, cell);
      forall i | 0 <= i < |ToReplace| && cell == ToReplace[i] ensures Alias(cell) == Replacement[i] {
        assert i == k;
      }
    }
  }

  /** Renaming twice is renaming once. */
  lemma AliasIdempotent(cell: string)
    ensures Alias(Alias(cell)) == Alias(cell)
  {
    AliasTableShape();
    if cell in ToReplace {
      var k := IndexOf(ToReplace, cell);
      assert Replacement[k] !in ToReplace;
    }
  }

  /** `replace` works on the whole frame: every string cell of the row. */
  function RenameRow(row: GeoRow): GeoRow
  {
    GeoRow(Alias(row.name), Alias(row.isoA3), row.geometry)
  }

  function Renamed(rows: seq<GeoRow>): (r: seq<GeoRow>)
    ensures |r| == |rows| && forall i :: 0 <= i < |rows| ==> r[i] == RenameRow(rows[i])
  {
    seq(|rows|, i requires 0 <= i < |rows| => RenameRow(rows[i]))
  }

  /** `countries.replace(..., inplace=True)`. */
  method ReplaceAliases(countries: array<GeoRow>)
    modifies countries
    ensures countries[..] == Renamed(old(countries[..]))
  {
    ghost var original := countries[..];
    ghost var target := Renamed(original);
    for i := 0 to countries.Length
      invariant countries[..i] == target[..i]
      invariant countries[i..] == original[i..]
    {
      assert countries[i] == original[i];
      countries[i] := RenameRow(countries[i]);
      assert countries[..i + 1] == target[..i + 1];
    }
    assert countries[..] == countries[..countries.Length];
  }

  /** A row of the merged frame: the boundary row and, when the join found
      one, the matching index record (otherwise its columns are NaN). */
  datatype MergedRow = MergedRow(geo: GeoRow, record: Option<Record>)

  /** The records a boundary name matches, in their order. */
  function Matches(data: seq<Record>, name: string): seq<Record>
  {
    Filter(data, CountryKey, [name])
  }

  /** What the left join emits for one boundary row. */
  function JoinRow(row: GeoRow, data: seq<Record>): (out: seq<MergedRow>)
    ensures |out| >= 1
  {
    var ms := Matches(data, row.name);
    if ms == [] then [MergedRow(row, None)]
    else seq(|ms|, i requires 0 <= i < |ms| => MergedRow(row, Some(ms[i])))
  }

  /** `countries.merge(data, left_on="NAME", right_on="Country", how="left")`:
      boundary rows in their order, each followed by its matches in the
      order of `data`. */
  function LeftJoin(rows: seq<GeoRow>, data: seq<Record>): (out: seq<MergedRow>)
    ensures |out| >= |rows|
  {
    if rows == [] then [] else JoinRow(rows[0], data) + LeftJoin(rows[1..], data)
  }

  /** `get_merged_dataframe`, given the loaded records and the boundary rows
      it reads from the shapefile. */
  method GetMergedDataframe(data: seq<Record>, shapes: seq<GeoRow>) returns (merged: seq<MergedRow>)
    ensures merged == LeftJoin(Renamed(shapes), data)
  {
    var countries := new GeoRow[|shapes|](i requires 0 <= i < |shapes| => shapes[i]);
    assert countries[..] == shapes;
    ReplaceAliases(countries);
    merged := LeftJoin(countries[..], data);
  }

  /** The join works row by row: joining a concatenation is concatenating
      the joins, so the boundary order is kept. */
  lemma {:induction false} LeftJoinConcat(a: seq<GeoRow>, b: seq<GeoRow>, data: seq<Record>)
    ensures LeftJoin(a + b, data) == LeftJoin(a, data) + LeftJoin(b, data)
  {
    if a == [] {
      assert a + b == b;
    } else {
      assert (a + b)[1..] == a[1..] + b;
      LeftJoinConcat(a[1..], b, data);
    }
  }

  /** A boundary row with k matching records yields k merged rows, one with
      no record when k is 0. */
  lemma JoinRowSize(row: GeoRow, data: seq<Record>)
    ensures |JoinRow(row, data)| == if Matches(data, row.name) == [] then 1 else |Matches(data, row.name)|
  {
  }

  /** A merged row either carries no record, or a record of `data` whose
      country is the boundary row's name. */
  lemma {:induction false} LeftJoinSound(rows: seq<GeoRow>, data: seq<Record>)
    ensures forall m :: m in LeftJoin(rows, data) ==> m.geo in rows
    ensures forall m :: m in LeftJoin(rows, data) && m.record.Some? ==>
      m.record.value in data && m.record.value.country == m.geo.name
  {
    if rows != [] {
      LeftJoinSound(rows[1..], data);
      var head := JoinRow(rows[0], data);
      forall m | m in head ensures m.geo == rows[0]
        && (m.record.Some? ==> m.record.value in data && m.record.value.country == m.geo.name)
      {
        var ms := Matches(data, rows[0].name);
        if ms != [] {
          var i :| 0 <= i < |head| && head[i] == m;
          assert m.record.value == ms[i] && ms[i] in ms;
        }
      }
    }
  }

  /** No boundary row is lost: an unmatched one appears once with no record,
      and a matched one appears with every record of its name. */
  lemma {:induction false} LeftJoinComplete(rows: seq<GeoRow>, data: seq<Record>)
    ensures forall g :: g in rows && Matches(data, g.name) == [] ==> MergedRow(g, None) in LeftJoin(rows, data)
    ensures forall g, rec :: g in rows && rec in data && rec.country == g.name ==>
      MergedRow(g, Some(rec)) in LeftJoin(rows, data)
  {
    if rows != [] {
      LeftJoinComplete(rows[1..], data);
      var head := JoinRow(rows[0], data);
      var out := LeftJoin(rows, data);
      assert out == head + LeftJoin(rows[1..], data);
      forall rec | rec in data && rec.country == rows[0].name
        ensures MergedRow(rows[0], Some(rec)) in out
      {
        var ms := Matches(data, rows[0].name);
        assert rec in ms;
        var i :| 0 <= i < |ms| && ms[i] == rec;
        assert head[i] == MergedRow(rows[0], Some(rec));
      }
      assert forall g :: g in rows ==> g == rows[0] || g in rows[1..];
    }
  }
}
