/** code/economist_democracy.py: the class `DemocracyData`, which loads the index table, drops the
    "2023 rank" column, melts it to long format and answers the filter and
    average queries. */
module EconomistDemocracy {
  import opened Wrappers
  import opened Reshape
  import opened Query

  /** The rank column `_setup_data` drops by name. */
  const RankColumn: string := "2023 rank"

  class DemocracyData {
    /** The long-format frame `self.df` (empty before `_setup_data`, where
        the source holds None). */
    var df: seq<Record>

    constructor ()
      ensures df == []
    {
      df := [];
    }

    /** `_setup_data`: `drop(columns=["2023 rank"], inplace=True)`, which
        raises KeyError when the column is absent, then melt and convert the
        years. On an error the frame is not replaced. */
    method SetupData(raw: WideTable) returns (err: Option<SetupError>)
      requires WellFormed(raw)
      modifies this
      ensures err.None? <==> SetupDropping(raw, RankColumn).Success?
      ensures err.None? ==> df == SetupDropping(raw, RankColumn).value
      ensures err.Some? ==> err.value == SetupDropping(raw, RankColumn).error && df == old(df)
    {
      var dropped := DropColumn(raw, RankColumn);
      if dropped.Failure? {
        err := Some(dropped.error);
        return;
      }
      var long := Melt(dropped.value);
      var converted := ConvertYears(long);
      match converted
      case Failure(e) =>
        err := Some(e);
      case Success(records) =>
        df := records;
        err := None;
    }

    function FilterByRegion(regions: seq<string>): (r: seq<Record>)
      reads this
      ensures forall x :: x in r <==> x in df && x.region in regions
      ensures regions == [] ==> r == []
    {
      FilterBy(RegionKey, regions)
    }

    function FilterByCountry(countries: seq<string>): (r: seq<Record>)
      reads this
      ensures forall x :: x in r <==> x in df && x.country in countries
      ensures countries == [] ==> r == []
    {
      FilterBy(CountryKey, countries)
    }

    function FilterByRegime(regimes: seq<string>): (r: seq<Record>)
      reads this
      ensures forall x :: x in r <==> x in df && x.regimeType in regimes
      ensures regimes == [] ==> r == []
    {
      FilterBy(RegimeTypeKey, regimes)
    }

    /** `_filter`: the records whose `key` column is in `values`. */
    function FilterBy(key: Key, values: seq<string>): (r: seq<Record>)
      reads this
      ensures forall x :: x in r <==> x in df && KeyValue(x, key) in values
      ensures values == [] ==> r == []
    {
      Filter(df, key, values)
    }

    function GetWorldAverage(): (rows: seq<YearAverage>)
      reads this
      ensures forall i, j :: 0 <= i < j < |rows| ==> rows[i].year < rows[j].year
      ensures forall y :: (exists i :: 0 <= i < |rows| && rows[i].year == y) <==> HasYear(df, y)
      ensures forall i :: 0 <= i < |rows| ==> rows[i].index == Mean(PresentValues(FilterYear(df, rows[i].year)))
    {
      WorldAverage(df)
    }

    function GetRegionAverages(): (rows: seq<GroupAverage>)
      reads this
      ensures forall i, j :: 0 <= i < j < |rows| ==> GroupLess(rows[i], rows[j])
      ensures forall g, y :: RowsHaveGroup(rows, g, y) <==> HasGroup(df, g, y)
      ensures forall i :: 0 <= i < |rows| ==> rows[i].index == GroupMean(df, rows[i].region, rows[i].year)
    {
      RegionAveragesSpec(df);
      RegionAverages(df)
    }
  }
}
