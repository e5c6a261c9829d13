# Economist Democracy Index: data core in Dafny

This project models the data layer behind the Economist Democracy Index
charts. That layer does five things:

- It reads the wide table (one row per country, one column per year) and
  drops the rank columns.
- It melts the table into one record per (country, year) and converts the
  year headers to integers.
- It filters the records by region, country, regime type or year, and
  averages the index per year and per (region, year).
- It classifies an index value into one of four regime types. It also
  builds the 5×5 regime migration matrix between two years.
- It renames 13 country names of the boundary shapes, left-joins the shapes
  onto the records, and computes per-country index changes.

It also models the colour helper that blends a `#rrggbb` colour toward
white.

Modules, one per concern:

| file | module | models |
|---|---|---|
| `wrappers.dfy` | `Wrappers` | `Option` and `Result`, for missing values and raised errors |
| `regime.dfy` | `Regime` | `assign_regime_type` and the four labels |
| `numerals.dfy` | `Numerals` | Python's `int(s, base)` on digit strings, and hex digit output |
| `reshape.dfy` | `Reshape` | `_setup_data`: drop, `melt`, `astype(int)` |
| `query.dfy` | `Query` | `_filter`, `filter_by_year`, the `groupby(...).mean()` aggregations |
| `src_data.dfy` | `SrcData` | class `Data` of `src/data.py` and its module-level functions |
| `geo.dfy` | `Geo` | the alias `replace` and the left `merge` of `get_merged_dataframe` |
| `transition.dfy` | `Transition` | `get_migration_matrix` |
| `dataset.dfy` | `Dataset` | class `Data` of `src/dataset.py` |
| `economist_democracy.dfy` | `EconomistDemocracy` | class `DemocracyData` of `code/economist_democracy.py` |
| `colors.dfy` | `Colors` | `Colors.get_opaque_hex_from_transparency` |

Modelling choices:

- A frame is a `seq<Record>`. The index is `Option<real>`, where `None`
  stands for NaN.
- The wide table is column-oriented: the identifying fields of each row,
  plus one `Column(name, values)` per remaining header.
- `melt` is column-major: all rows of the first year column come first.
- `groupby` sorts its keys. Years come out ascending. Regions are ordered
  by code point, as Python compares strings.
- A mean is the exact real `sum / count` over present values. A group with
  no present value has mean `None`.
- A raised exception becomes a `Failure` or `None` result:
  - `KeyError` from `drop(columns=["2023 rank"])` when that column is absent;
  - `ValueError` from `astype(int)` on a non-integer header;
  - `ValueError` from `int(..., 16)` on a bad colour.
- Classes whose `self.df` is reassigned are Dafny classes with a `df`
  field. The filters and averages are functions that read it.
- Column overwrites of a frame are methods over an `array`:
  - `df["RegimeType"] = ...apply(assign_regime_type)`;
  - the in-place `replace`.
  Each method is proved equal to a function on the old contents.
- The migration matrix is an `array2` filled by nested loops, as in the
  source.

Points of the source worth stating plainly:

- `src/dataset.py` and `code/economist_democracy.py` drop only the
  `"2023 rank"` column, and raise `KeyError` when it is absent.
  `src/data.py` drops every header containing `" rank"`.
- A NaN index compares false against every threshold, so it is classified
  `"Authoritarian"`. The 4×4 block of the migration matrix therefore sums to
  the full slice length (`Transition.GetMigrationMatrix`).
- The left merge keeps every geometry row. A geometry with no matching
  record gives one row with no record (`Geo.LeftJoinComplete`). Only records
  with no matching geometry are absent from the merged frame.

## Model

| member | source | states |
|---|---|---|
| Regime.Band | src/data.py:302-303 | the band index of a regime is one of the four positions of the `regimes` list |
| Regime.FromBand | src/data.py:302-303 | every band position below 4 is the band of some regime |
| Regime.ParseLabel | src/data.py:302-303 | a label parses only to the regime that prints as that label |
| Regime.AssignRegimeType | src/data.py:230-251 | `assign_regime_type` on a present value; specified by Regime.Thresholds and Regime.Monotone below |
| Regime.ClassifyCell | src/data.py:244-251 | the classifier on a cell that may be NaN: NaN fails every comparison and keeps "Authoritarian"; specified by Regime.ClassifyCellIsLabel and Transition.LabelOfBand |
| Regime.LabelParseRoundTrip | src/data.py:244-251 | each label the classifier returns parses back to its regime |
| Regime.LabelInjective | src/data.py:244-251 | the four labels are distinct, so a label identifies its regime |
| Regime.BandInjective | src/data.py:302-303 | distinct regimes sit at distinct band positions |
| Regime.Thresholds | src/data.py:244-251 | full democracy iff index ≥ 8.0; flawed iff 6.0 ≤ index < 8.0; hybrid iff 4.0 ≤ index < 6.0; authoritarian iff index < 4.0 (lower bounds inclusive) |
| Regime.Monotone | src/data.py:245-250 | a ≤ b implies the band of a is at most the band of b |
| Regime.ClassifyCellIsLabel | src/data.py:200 | classifying any cell, NaN included, gives one of the four labels |
| Numerals.DigitValue | src/colors.py:70 | a digit's value is below 36 |
| Numerals.DigitChar | src/colors.py:74 | the character written for a digit reads back as that digit and is not upper case |
| Numerals.Lower | src/colors.py:74 | lower-casing keeps the length and lower-cases each character |
| Numerals.ParseInt | src/colors.py:70 | `int(s, base)` succeeds iff s is non-empty and every character is a digit of the base |
| Numerals.ToDigits | src/colors.py:74 | a number is written with at least one digit |
| Numerals.ParseToDigits | src/colors.py:70-74 | reading back the digits written for n gives n |
| Numerals.ParseTwoDigits | src/colors.py:70 | a two-digit string reads as first digit × base + second digit |
| Numerals.DigitCharOfValue | src/colors.py:74 | writing back the value of a digit character gives that character lower-cased |
| Reshape.KeepColumns | src/data.py:19-20 | never more columns than the input; order, counts and membership are stated by the four lemmas below |
| Reshape.KeepColumnsConcat | src/data.py:19-20 | dropping distributes over concatenation, so the kept columns stay in their CSV order |
| Reshape.KeepColumnsCount | src/data.py:19-20 | a kept column occurs as often as in the input; a column whose header the rule removes does not occur |
| Reshape.KeepColumnsMembers | src/data.py:19-20 | a column is kept iff it is an input column whose header the rule does not remove |
| Reshape.KeepColumnsNoneDoomed | src/data.py:19-20 | when no header matches the rule, the columns are kept unchanged |
| Reshape.DropRankColumns | src/data.py:19-20 | the rows stay the same; a column is kept iff its header does not contain " rank" |
| Reshape.DropColumn | src/dataset.py:11 | KeyError iff no column has the name; otherwise exactly the columns with other names remain and the rows are unchanged |
| Reshape.MeltColumn | src/data.py:24-28 | one melted row per input row for each year column |
| Reshape.Melt | src/data.py:24-28 | `melt` with the three id columns, column-major; specified by Reshape.MeltLength, Reshape.MeltCell and Reshape.MeltIndex |
| Reshape.MeltLength | src/data.py:24-28 | melting R rows and C year columns gives R × C rows |
| Reshape.MeltCell | src/data.py:24-28 | row r of column j lands at position j × R + r, carrying that row's ids, the column header and the cell |
| Reshape.MeltIndex | src/data.py:24-28 | melted row k is row k mod R of column k div R, so nothing is dropped or duplicated |
| Reshape.ParseYear | src/data.py:29 | `int(header)` on a year header; it is `Numerals.ParseInt` in base 10, specified by Numerals.ParseInt and Numerals.ParseToDigits |
| Reshape.ConvertYears | src/data.py:29 | `astype(int)` succeeds iff every header is an integer; it then keeps the length and converts each row in place; a failure names the first header that is not an integer |
| Reshape.MeltAndConvertSucceeds | src/data.py:24-29 | the reshape succeeds iff there are no rows or every remaining header is an integer |
| Reshape.MeltAndConvertCell | src/data.py:19-29 | on success there are R × C records; record j × R + r has row r's region, country and regime type, column j's integer year and the cell value |
| Reshape.SetupRankDropped | src/data.py:14-29 | `_setup_data` of src/data.py as a value; specified by Reshape.SetupRankDroppedCell and SrcData.Data.SetupData |
| Reshape.SetupRankDroppedCell | src/data.py:14-29 | on success there are R × Y records, Y the number of columns without " rank"; record j × R + r is row r with the j-th such column, in CSV order |
| Reshape.SetupDropping | src/dataset.py:9-20 | `_setup_data` of src/dataset.py as a value; specified by Reshape.SetupDroppingCell and Dataset.Data.SetupData |
| Reshape.SetupDroppingCell | src/dataset.py:9-20 | on success there are R × Y records, Y the number of columns other than the dropped one; record j × R + r is row r with the j-th such column |
| Query.Filter | src/data.py:98-114 | `isin`: a record is kept iff its key value is in `values`; no values gives nothing |
| Query.FilterYear | src/data.py:82-96 | a record is kept iff its year is the given year |
| Query.FilterConcat | src/data.py:114 | filtering distributes over concatenation, so the original order is kept |
| Query.FilterCount | src/data.py:114 | a kept record keeps its multiplicity; a rejected one has none |
| Query.FilterIdempotent | src/data.py:114 | filtering twice by the same values is filtering once |
| Query.FilterYearConcat | src/data.py:96 | the year filter distributes over concatenation, so the order is kept |
| Query.PresentValues | src/data.py:126-127 | the values averaged are at most as many as the records; which ones and in what order is stated by the three lemmas below |
| Query.PresentValuesOne | src/data.py:126-127 | one record contributes its index, or nothing when it is NaN |
| Query.PresentValuesConcat | src/data.py:126-127 | the values of a concatenation are the values of its parts, in order |
| Query.PresentValuesAllPresent | src/data.py:126-127 | with no NaN cell, the values are the records' indices, one for one and in order |
| Query.SumBounds | src/data.py:126-127 | a sum of n values in [lo, hi] lies in [n·lo, n·hi] |
| Query.Mean | src/data.py:126-127 | `mean()` skipping NaN: None for no values; bounded by Query.MeanBounds |
| Query.MeanBounds | src/data.py:126-127 | a mean of values in [lo, hi] lies in [lo, hi] |
| Query.PresentValuesWithin | src/data.py:126-127 | the present values of records whose indices lie in [lo, hi] lie in [lo, hi] |
| Query.FilterYearWithin | src/data.py:96 | the year filter keeps indices within their bounds |
| Query.FilterWithin | src/data.py:114 | the key filter keeps indices within their bounds |
| Query.InsertYear | src/data.py:126 | inserting a year into a strictly increasing list keeps it strictly increasing and adds exactly that year |
| Query.DistinctYears | src/data.py:126 | the group keys are strictly increasing and are exactly the years present |
| Query.YearMean | src/data.py:126-127 | the mean of one year's present indices; used by Query.WorldAverage, whose contract values each row by it |
| Query.WorldAverage | src/data.py:116-127 | one row per year present, years strictly increasing, each valued at the mean of that year's present indices |
| Query.WorldAverageWithin | src/data.py:126-127 | every defined world average lies within bounds that hold for all indices |
| Query.LexIrreflexive | src/data.py:139-140 | no region name sorts before itself |
| Query.LexTransitive | src/data.py:139-140 | the region order is transitive |
| Query.LexTotal | src/data.py:139-140 | any two distinct region names are ordered one way or the other |
| Query.InsertRegion | src/data.py:139-140 | inserting a region into a sorted list keeps it sorted and adds exactly that region |
| Query.DistinctRegions | src/data.py:139-140 | the region keys are sorted and are exactly the regions present |
| Query.RegionBlock | src/data.py:139-142 | every row of a region's block belongs to that region |
| Query.RegionRows | src/data.py:139-142 | every row belongs to one of the listed regions |
| Query.RegionSliceYears | src/data.py:139-140 | a year occurs in a region's records iff that (region, year) group is observed |
| Query.RegionRowsSorted | src/data.py:139-142 | rows come ordered by region, then by year |
| Query.BlockGroups | src/data.py:139-142 | a region's block has a row for (g, y) iff g is that region and the group is observed |
| Query.ConcatGroups | src/data.py:139-142 | a group occurs in a concatenation iff it occurs in one of its parts |
| Query.RegionRowsGroups | src/data.py:139-142 | a (region, year) row occurs iff the region is listed and the group is observed |
| Query.RegionRowsValues | src/data.py:139-142 | each row is valued at its group's mean |
| Query.RegionAverages | src/data.py:139-142 | the grouped region means; specified by Query.RegionAveragesSpec |
| Query.RegionAveragesSpec | src/data.py:129-142 | one row per observed (region, year) group, ordered by region then year, each valued at the group mean |
| SrcData.Data.constructor | src/data.py:10-11 | a new object's frame is empty until set up |
| SrcData.Data.SetupData | src/data.py:14-29 | the frame becomes the rank-dropped, melted, year-converted table; on ValueError the frame is unchanged |
| SrcData.Data.FilterByRegion | src/data.py:31-46 | exactly the records whose region is listed; no regions gives nothing |
| SrcData.Data.FilterByCountry | src/data.py:48-63 | exactly the records whose country is listed; no countries gives nothing |
| SrcData.Data.FilterByRegime | src/data.py:65-80 | exactly the records whose regime type is listed; no regimes gives nothing |
| SrcData.Data.FilterByYear | src/data.py:82-96 | exactly the records of the given year |
| SrcData.Data.FilterBy | src/data.py:98-114 | exactly the records whose key value is listed; no values gives nothing |
| SrcData.Data.GetWorldAverage | src/data.py:116-127 | one row per year of the frame, ascending, valued at that year's mean |
| SrcData.Data.GetRegionAverages | src/data.py:129-142 | one row per observed (region, year), sorted, valued at the group mean |
| SrcData.Reclassify | src/data.py:200 | one record with its label re-derived from its own index; specified by SrcData.YearlyDataSpec and SrcData.ReclassifiedIdempotent |
| SrcData.Reclassified | src/data.py:200 | one output record per input record, each reclassified from its own index |
| SrcData.RemapRegimeTypes | src/data.py:200 | the column overwrite leaves each record reclassified in place |
| SrcData.GetYearlyData | src/data.py:180-202 | the result is the year's slice, reclassified |
| SrcData.YearlyDataSpec | src/data.py:196-202 | same count as the year's slice; each record keeps year, region, country and index, and its regime label is the classification of its index |
| SrcData.ReclassifiedIdempotent | src/data.py:200 | reclassifying twice is reclassifying once |
| SrcData.ExcludeAntarctica | src/data.py:221 | never more rows than the input, and no kept row has a shape named "Antarctica" |
| SrcData.ExcludeAntarcticaConcat | src/data.py:221 | the exclusion distributes over concatenation, so the rows kept stay in order |
| SrcData.ExcludeAntarcticaCount | src/data.py:221 | a row not named "Antarctica" keeps its multiplicity; an "Antarctica" row has none |
| SrcData.ExcludeAntarcticaMembers | src/data.py:221 | a merged row is kept iff its shape is not named "Antarctica" |
| SrcData.MergedYear | src/data.py:222 | never more rows than the input, and every kept row has a record of the given year |
| SrcData.MergedYearConcat | src/data.py:222 | the year filter distributes over concatenation, so the rows kept stay in order |
| SrcData.MergedYearCount | src/data.py:222 | a row with a record of the year keeps its multiplicity; any other row has none |
| SrcData.MergedYearMembers | src/data.py:222 | a merged row is kept iff it has a record of the given year (NaN years compare false) |
| SrcData.ReclassifiedRows | src/data.py:225 | one output row per merged row, each reclassified |
| SrcData.RemapRowRegimeTypes | src/data.py:225 | the column overwrite leaves each merged row reclassified in place |
| SrcData.GetYearlyGeographicData | src/data.py:205-227 | the result is the merged frame without Antarctica, sliced to the year, reclassified |
| SrcData.GeoSlice | src/data.py:220-222 | the merged frame without Antarctica, sliced to a year; specified by SrcData.GeoSliceSpec |
| SrcData.GeoSliceSpec | src/data.py:220-222 | every row of the slice has a renamed shape other than Antarctica, joined to a record of the data for that year and that country |
| SrcData.GetIndexChangeGeographicData | src/data.py:254-279 | for equal-length slices, row p is the end-year row p with change = end index − start index at position p (NaN if either is NaN) |
| SrcData.Subtract | src/data.py:275-276 | NaN-propagating subtraction of two index cells; specified by SrcData.SubtractInverse |
| SrcData.SubtractInverse | src/data.py:275-276 | the change is defined iff both indices are, and start + change = end |
| Geo.IndexOf | src/data.py:172 | the position found holds the name and is its first occurrence |
| Geo.Alias | src/data.py:172 | the whole-value `replace` of one cell; specified by Geo.AliasSpec and Geo.AliasIdempotent |
| Geo.AliasTableShape | src/data.py:161-171 | 13 names and 13 replacements; the names are distinct and no replacement is itself a name to replace |
| Geo.AliasSpec | src/data.py:172 | a name in the table becomes the replacement at its position; every other name is unchanged |
| Geo.AliasIdempotent | src/data.py:172 | renaming twice is renaming once |
| Geo.RenameRow | src/data.py:172 | `replace` on the name-bearing cells of one shape row; the geometry is kept |
| Geo.Renamed | src/data.py:172 | one output row per shape, each renamed |
| Geo.ReplaceAliases | src/data.py:172 | the in-place replace leaves each shape row renamed |
| Geo.JoinRow | src/data.py:174-175 | a shape row yields at least one merged row |
| Geo.LeftJoin | src/data.py:174-175 | the left merge keeps at least one row per shape |
| Geo.GetMergedDataframe | src/data.py:145-177 | the result is the left merge of the renamed shapes with the records |
| Geo.LeftJoinConcat | src/data.py:174-175 | the merge distributes over the shape rows, so their order is kept |
| Geo.JoinRowSize | src/data.py:174-175 | a shape yields one row per matching record, or one row when none matches |
| Geo.LeftJoinSound | src/data.py:174-175 | every merged row comes from a shape row, and any record in it is a record of that country |
| Geo.LeftJoinComplete | src/data.py:174-175 | every (shape, record) pair with equal names occurs, and every unmatched shape occurs with no record |
| Transition.CoCount | src/data.py:309-310 | a co-occurrence count is at most the slice length |
| Transition.LabelCount | src/data.py:312-313 | a label count is at most the slice length |
| Transition.RowTotalIsStartCount | src/data.py:313 | when all end labels are regime labels, row i's total is the number of start records labelled i |
| Transition.ColumnTotalIsEndCount | src/data.py:312 | when all start labels are regime labels, column j's total is the number of end records labelled j |
| Transition.LabelCountsCover | src/data.py:302-303 | when every label is one of the four, the four label counts add up to the slice length |
| Transition.BlockTotal | src/data.py:306-313 | the four row totals add up to the slice length |
| Transition.FillMigrationMatrix | src/data.py:306-313 | a fresh 5×5 matrix: cell (i, j) counts positions labelled i at the start and j at the end; row 4 holds column sums; column 4 holds row sums; the corner is NaN |
| Transition.FillBlock | src/data.py:306-310 | after the nested loops over the regimes, every cell (i, j) of the 4×4 block holds the co-count of regimes i and j; the last row and column are untouched |
| Transition.FillColumnTotals | src/data.py:312 | the last row holds the column sums of the block; the block and the whole last column, corner included, are kept |
| Transition.FillRowTotals | src/data.py:313 | the last column holds the row sums of the block; the block, the totals row and the corner are kept |
| Transition.GetMigrationMatrix | src/data.py:282-314 | the same over the two reclassified year slices, in terms of bands of the index; the row totals add up to the slice length |
| Transition.ReclassifiedLabelled | src/data.py:200 | after reclassification every label is one of the four |
| Transition.LabelOfBand | src/data.py:307-310 | a classified cell has label i iff its band is i |
| Transition.CoCountIsBandCount | src/data.py:307-310 | counting labels of the reclassified slices is counting index bands position by position |
| Transition.LabelCountIsBandTotal | src/data.py:312-313 | counting a label in a reclassified slice is counting indices in that band |
| Dataset.Data.constructor | src/dataset.py:5-6 | a new object's frame is empty until set up |
| Dataset.Data.SetupData | src/dataset.py:9-20 | the frame becomes the table without "2023 rank", melted and year-converted; KeyError when that column is absent, ValueError on a bad header, frame unchanged |
| Dataset.Data.FilterByRegion | src/dataset.py:22-23 | exactly the records whose region is listed; no regions gives nothing |
| Dataset.Data.FilterByCountry | src/dataset.py:25-26 | exactly the records whose country is listed; no countries gives nothing |
| Dataset.Data.FilterByRegime | src/dataset.py:28-29 | exactly the records whose regime type is listed; no regimes gives nothing |
| Dataset.Data.FilterBy | src/dataset.py:31-32 | exactly the records whose key value is listed; no values gives nothing |
| Dataset.Data.GetWorldAverage | src/dataset.py:34-36 | one row per year, ascending, valued at that year's mean |
| Dataset.Data.GetRegionAverages | src/dataset.py:38-42 | one row per observed (region, year), sorted, valued at the group mean |
| EconomistDemocracy.DemocracyData.constructor | code/economist_democracy.py:9-10 | a new object's frame is empty until set up |
| EconomistDemocracy.DemocracyData.SetupData | code/economist_democracy.py:13-24 | the frame becomes the table without "2023 rank", melted and year-converted; KeyError when that column is absent, ValueError on a bad header, frame unchanged |
| EconomistDemocracy.DemocracyData.FilterByRegion | code/economist_democracy.py:26-27 | exactly the records whose region is listed; no regions gives nothing |
| EconomistDemocracy.DemocracyData.FilterByCountry | code/economist_democracy.py:29-30 | exactly the records whose country is listed; no countries gives nothing |
| EconomistDemocracy.DemocracyData.FilterByRegime | code/economist_democracy.py:32-33 | exactly the records whose regime type is listed; no regimes gives nothing |
| EconomistDemocracy.DemocracyData.FilterBy | code/economist_democracy.py:35-36 | exactly the records whose key value is listed; no values gives nothing |
| EconomistDemocracy.DemocracyData.GetWorldAverage | code/economist_democracy.py:38-40 | one row per year, ascending, valued at that year's mean |
| EconomistDemocracy.DemocracyData.GetRegionAverages | code/economist_democracy.py:42-46 | one row per observed (region, year), sorted, valued at the group mean |
| Colors.StripHashes | src/colors.py:69 | `lstrip("#")` removes exactly the leading '#' characters |
| Colors.Slice | src/colors.py:70 | `s[i:j]` is empty when i is past the end; otherwise it has min(j, len) − i characters, and character k is s[i + k] |
| Colors.Trunc | src/colors.py:71-73 | `int()` on a float truncates toward zero |
| Colors.ParseChannel | src/colors.py:70 | `int(hex[i:i + 2], 16)`, None where Python raises; specified by Colors.ChannelBounds and Colors.ChannelDefined |
| Colors.ChannelBounds | src/colors.py:70 | a parsed channel lies in [0, 255] |
| Colors.ChannelDefined | src/colors.py:70 | a channel parses iff its slice is non-empty and all hex digits |
| Colors.ParseColor | src/colors.py:69-70 | the strip and the three channel reads; specified by Colors.ParseColorDefined and the two round trips |
| Colors.ParseColorDefined | src/colors.py:69-70 | the colour parses iff at least five characters remain after the '#'s and the first six (or five) are hex digits |
| Colors.Hex02 | src/colors.py:74 | `{:02x}` of one channel; specified by Colors.ReadHex02 |
| Colors.FormatColor | src/colors.py:74 | the `"#{:02x}{:02x}{:02x}"` format; specified by Colors.FormatParseRoundTrip and Colors.ParseFormatRoundTrip |
| Colors.ReadHex02 | src/colors.py:74 | `{:02x}` writes a channel as two lower-case hex digits that read back as the channel |
| Colors.PairWrittenBack | src/colors.py:70-74 | writing a parsed channel gives back its two hex characters, lower-cased |
| Colors.FormatParseRoundTrip | src/colors.py:69-74 | formatting a colour with channels in [0, 255] and parsing it back gives the colour |
| Colors.ParseFormatRoundTrip | src/colors.py:69-74 | parsing a colour with six hex digits and formatting it gives "#" and those six digits lower-cased |
| Colors.Blend | src/colors.py:71-73 | `int(255 - transparency * (255 - c))`; specified by Colors.BlendBounds and Colors.BlendMonotone |
| Colors.BlendBounds | src/colors.py:58-62 | for t in [0, 1], a blended channel lies between the channel and 255 |
| Colors.BlendMonotone | src/colors.py:71-73 | more opacity never gives a lighter channel |
| Colors.GetOpaqueHexFromTransparency | src/colors.py:51-74 | the whole method, None where Python raises ValueError; specified by Colors.OpaqueShape, Colors.FullyOpaque, Colors.FullyTransparent and the two examples |
| Colors.OpaqueShape | src/colors.py:69-74 | for t in [0, 1] the result is "#" plus six lower-case hex digits, and each channel lies between the input's and 255 |
| Colors.FullyOpaque | src/colors.py:61-62 | t = 1 gives the input colour lower-cased |
| Colors.FullyTransparent | src/colors.py:61-62 | t = 0 gives "#ffffff" |
| Colors.BlueExample | tests/test_text_color.py:6-10 | "#1f77b4" at 0.2 gives "#d2e3f0" |
| Colors.OrangeExample | tests/test_text_color.py:12-16 | "#ff7f0e" at 0.2 gives "#ffe5ce" |

## Left out

- Chart rendering is not modelled: `src/plots.py`, `src/interactive_plots.py` and `DemocracyFigures` in `code/economist_democracy.py` are plotting calls and file writes.
- `src/raw_data.py` is not part of this model. It is a web scrape and a CSV write.
- CSV and shapefile reading are not modelled. The constructors leave `df` empty, and `SetupData` takes the wide table as a parameter. `get_merged_dataframe` and its callers take the records and shapes as parameters, instead of calling `Data()` and `read_file`.
- The colormap and colorscale construction in `Colors.__init__` is not modelled. It depends on matplotlib interpolation.
- The constant tables in `src/config.py` and `code/colors.py` are not modelled. They have no behaviour.
- `astype("category")` is not modelled. It changes only the dtype of Region and RegimeType. Its one visible effect, sorted group keys, is modelled directly.
- Floating point is modelled as exact reals. IEEE rounding of `255 - t * (255 - c)` and of the means is not modelled. NaN is `None`.
- Reshape.ParseYear: Python's `int()` also accepts surrounding whitespace, a sign, underscores and non-ASCII digits. Only plain ASCII digit strings are accepted here.
- Colors.ParseChannel: the same restriction applies to `int(s, 16)`, so a slice such as "+f" is rejected here although Python accepts it.
- SrcData.GetIndexChangeGeographicData: requires equal-length year slices. Python raises on unequal lengths, and numpy broadcasts a length-1 slice; neither is modelled.
- Transition.GetMigrationMatrix: requires equal-length year slices, for the same broadcasting reason.
- SrcData.Data.SetupData: on an error the model keeps the old frame. In Python the exception propagates out of `__init__`, so no object is ever built.
- Dataset.Data.SetupData: as for `SrcData.Data.SetupData`.
- EconomistDemocracy.DemocracyData.SetupData: as for `SrcData.Data.SetupData`.
- Geo.ReplaceAliases: `replace` rewrites every column of the shapes frame. The model rewrites the two name-bearing columns, NAME and ISO_A3. The geometry is carried along as an opaque value.
- SrcData.ReclassifyRow: a merged row without a record has no index to classify. The model keeps it unchanged, although `apply` would label its NaN "Authoritarian". Such rows never survive the year filter that comes first.
- Transition.FillMigrationMatrix: cells are exact naturals, not floats. The NaN corner is a separate `Undefined` cell.
