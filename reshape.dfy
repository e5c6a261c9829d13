/** The wide-to-long reshape done by `_setup_data` (src/data.py,
    src/dataset.py, code/economist_democracy.py): drop the rank columns, melt
    one-row-per-country / one-column-per-year into one record per
    (country, year column), and convert the year headers to integers. */
module Reshape {
  import opened Wrappers
  import Numerals

  /** The identifying columns `melt` keeps (`id_vars`). */
  datatype Ids = Ids(region: string, country: string, regimeType: string)

  /** One non-identifying column of the wide CSV: its header and one cell per
      row (None where the CSV cell is empty, i.e. NaN). */
  datatype Column = Column(name: string, values: seq<Option<real>>)

  /** The wide table as `read_csv` returns it. */
  datatype WideTable = WideTable(rows: seq<Ids>, columns: seq<Column>)

  /** Every column has one cell per row, as in any DataFrame. */
  predicate WellFormed(t: WideTable)
  {
    forall j :: 0 <= j < |t.columns| ==> |t.columns[j].values| == |t.rows|
  }

  /** A row of the melted frame, before `Year` is converted. */
  datatype LongRow = LongRow(ids: Ids, yearHeader: string, index: Option<real>)

  /** A row of the final long-format frame. */
  datatype Record = Record(region: string, country: string, regimeType: string, year: int, index: Option<real>)

  /** What `_setup_data` can raise: KeyError from `drop` on an absent column,
      ValueError from `astype(int)` on a header that is not an integer. */
  datatype SetupError = MissingColumn(name: string) | InvalidYear(header: string)

  // ---------------------------------------------------------------- dropping

  predicate HasPrefix(s: string, p: string)
  {
    |p| <= |s| && s[..|p|] == p
  }

  /** Whether `pattern` occurs in `s`; the regex ' rank' has no special
      characters, so `filter(regex=' rank')` keeps the headers containing it. */
  predicate Contains(s: string, pattern: string)
    decreases |s|
  {
    HasPrefix(s, pattern) || (s != [] && Contains(s[1..], pattern))
  }

  predicate IsRankColumn(name: string)
  {
    Contains(name, " rank")
  }

  /** Which headers a drop step removes: every header containing " rank"
      (src/data.py), or exactly one named header (src/dataset.py and
      code/economist_democracy.py). */
  datatype DropRule = RankColumns | Named(name: string)

  predicate Doomed(rule: DropRule, header: string)
  {
    match rule
    case RankColumns => IsRankColumn(header)
    case Named(name) => header == name
  }

  /** The columns the rule does not remove, in order. */
  function KeepColumns(cs: seq<Column>, rule: DropRule): (kept: seq<Column>)
    ensures |kept| <= |cs|
  {
    if cs == [] then []
    else (if Doomed(rule, cs[0].name) then [] else [cs[0]]) + KeepColumns(cs[1..], rule)
  }

  /** Dropping distributes over concatenation: the kept columns stay in
      their CSV order. */
  lemma {:induction false} KeepColumnsConcat(a: seq<Column>, b: seq<Column>, rule: DropRule)
    ensures KeepColumns(a + b, rule) == KeepColumns(a, rule) + KeepColumns(b, rule)
  {
    if a == [] {
      assert a + b == b;
    } else {
      KeepColumnsConcat(a[1..], b, rule);
      KeepColumnsFirst(a, b, rule);
    }
  }

  /** One step of KeepColumnsConcat: the first column of `a` is handled
      the same way in front of `b`. */
  lemma KeepColumnsFirst(a: seq<Column>, b: seq<Column>, rule: DropRule)
    requires a != []
    requires KeepColumns(a[1..] + b, rule) == KeepColumns(a[1..], rule) + KeepColumns(b, rule)
    ensures KeepColumns(a + b, rule) == KeepColumns(a, rule) + KeepColumns(b, rule)
  {
    var keep := if Doomed(rule, a[0].name) then [] else [a[0]];
    assert KeepColumns(a + b, rule) == keep + KeepColumns(a[1..] + b, rule) by {
      assert (a + b)[0] == a[0] && (a + b)[1..] == a[1..] + b;
    }
    assert KeepColumns(a, rule) == keep + KeepColumns(a[1..], rule);
    Associative(keep, KeepColumns(a[1..], rule), KeepColumns(b, rule));
  }

  lemma Associative(x: seq<Column>, y: seq<Column>, z: seq<Column>)
    ensures x + (y + z) == (x + y) + z
  {
  }

  /** Each kept column is kept as many times as it occurs; a dropped one not
      at all. */
  lemma {:induction false} KeepColumnsCount(cs: seq<Column>, rule: DropRule, c: Column)
    ensures multiset(KeepColumns(cs, rule))[c] == if Doomed(rule, c.name) then 0 else multiset(cs)[c]
  {
    if cs != [] {
      var keep := if Doomed(rule, cs[0].name) then [] else [cs[0]];
      assert KeepColumns(cs, rule) == keep + KeepColumns(cs[1..], rule);
      KeepColumnsCount(cs[1..], rule, c);
      assert cs == [cs[0]] + cs[1..];
      assert multiset(cs) == multiset([cs[0]]) + multiset(cs[1..]);
    }
  }

  /** The kept columns are exactly the columns the rule does not remove. */
  lemma KeepColumnsMembers(cs: seq<Column>, rule: DropRule)
    ensures forall c :: c in KeepColumns(cs, rule) <==> c in cs && !Doomed(rule, c.name)
  {
    forall c | true
      ensures c in KeepColumns(cs, rule) <==> c in cs && !Doomed(rule, c.name)
    {
      KeepColumnsCount(cs, rule, c);
    }
  }

  /** With no header to drop, every column is kept as it is. */
  lemma {:induction false} KeepColumnsNoneDoomed(cs: seq<Column>, rule: DropRule)
    requires forall j :: 0 <= j < |cs| ==> !Doomed(rule, cs[j].name)
    ensures KeepColumns(cs, rule) == cs
  {
    if cs != [] {
      assert forall j :: 0 <= j < |cs| - 1 ==> cs[1..][j] == cs[j + 1];
      KeepColumnsNoneDoomed(cs[1..], rule);
      assert cs == [cs[0]] + cs[1..];
    }
  }

  /** src/data.py: drop every column whose header contains " rank". */
  function DropRankColumns(t: WideTable): (r: WideTable)
    requires WellFormed(t)
    ensures WellFormed(r) && r.rows == t.rows
    ensures forall c :: c in r.columns <==> c in t.columns && !IsRankColumn(c.name)
  {
    KeepColumnsMembers(t.columns, RankColumns);
    WideTable(t.rows, KeepColumns(t.columns, RankColumns))
  }

  /** src/dataset.py and code/economist_democracy.py: `drop(columns=[name])`,
      which raises KeyError when no column has that header. */
  function DropColumn(t: WideTable, name: string): (r: Result<WideTable, SetupError>)
    requires WellFormed(t)
    ensures r.Failure? <==> forall c :: c in t.columns ==> c.name != name
    ensures r.Failure? ==> r.error == MissingColumn(name)
    ensures r.Success? ==> WellFormed(r.value) && r.value.rows == t.rows
    ensures r.Success? ==> forall c :: c in r.value.columns <==> c in t.columns && c.name != name
  {
    if forall c :: c in t.columns ==> c.name != name then Failure(MissingColumn(name))
    else
      KeepColumnsMembers(t.columns, Named(name));
      Success(WideTable(t.rows, KeepColumns(t.columns, Named(name))))
  }

  // ----------------------------------------------------------------- melting

  /** The long row for wide row `r` and column `j`. */
  function CellRow(t: WideTable, r: nat, j: nat): LongRow
    requires WellFormed(t) && r < |t.rows| && j < |t.columns|
  {
    LongRow(t.rows[r], t.columns[j].name, t.columns[j].values[r])
  }

  /** The block `melt` emits for one column: every row, in row order. */
  function MeltColumn(rows: seq<Ids>, c: Column): (block: seq<LongRow>)
    requires |c.values| == |rows|
    ensures |block| == |rows|
  {
    seq(|rows|, r requires 0 <= r < |rows| => LongRow(rows[r], c.name, c.values[r]))
  }

  /** `melt(id_vars=[Region, Country, RegimeType])`: column-major, all rows
      for the first value column, then all rows for the next. */
  function Melt(t: WideTable): (long: seq<LongRow>)
    requires WellFormed(t)
    decreases |t.columns|
  {
    if t.columns == [] then []
    else MeltColumn(t.rows, t.columns[0]) + Melt(WideTable(t.rows, t.columns[1..]))
  }

  lemma {:induction false} MeltLength(t: WideTable)
    requires WellFormed(t)
    ensures |Melt(t)| == |t.rows| * |t.columns|
    decreases |t.columns|
  {
    if t.columns != [] {
      MeltLength(WideTable(t.rows, t.columns[1..]));
      MulSucc(|t.columns| - 1, |t.rows|);
    }
  }

  /** The record at `j * R + r` is the cell of row r and column j. */
  lemma {:induction false} MeltCell(t: WideTable, j: nat, r: nat)
    requires WellFormed(t) && j < |t.columns| && r < |t.rows|
    ensures j * |t.rows| + r < |Melt(t)|
    ensures Melt(t)[j * |t.rows| + r] == CellRow(t, r, j)
    decreases j
  {
    var rest := WideTable(t.rows, t.columns[1..]);
    if j == 0 {
      MeltCellFirst(t, r);
    } else {
      MeltCell(rest, j - 1, r);
      var k := (j - 1) * |t.rows| + r;
      MeltCellNext(t, j, r, k);
      NextBlock(j, |t.rows|, r);
    }
  }

  /** The first block is the first column. */
  lemma MeltCellFirst(t: WideTable, r: nat)
    requires WellFormed(t) && 0 < |t.columns| && r < |t.rows|
    ensures r < |Melt(t)| && Melt(t)[r] == CellRow(t, r, 0)
  {
    var block := MeltColumn(t.rows, t.columns[0]);
    assert Melt(t) == block + Melt(WideTable(t.rows, t.columns[1..]));
    assert Melt(t)[r] == block[r];
  }

  /** The step of MeltCell: the cell of column j is the cell of column
      j - 1 of the remaining columns, one block further on. */
  lemma MeltCellNext(t: WideTable, j: nat, r: nat, k: nat)
    requires WellFormed(t) && 0 < j < |t.columns| && r < |t.rows|
    requires k < |Melt(WideTable(t.rows, t.columns[1..]))|
    requires Melt(WideTable(t.rows, t.columns[1..]))[k] == CellRow(WideTable(t.rows, t.columns[1..]), r, j - 1)
    ensures |t.rows| + k < |Melt(t)|
    ensures Melt(t)[|t.rows| + k] == CellRow(t, r, j)
  {
    var rest := WideTable(t.rows, t.columns[1..]);
    MeltShift(t, k);
    assert CellRow(rest, r, j - 1) == CellRow(t, r, j);
  }

  /** Position j * R + r is R past position (j - 1) * R + r. */
  lemma NextBlock(j: nat, nR: nat, r: nat)
    requires 0 < j
    ensures j * nR + r == nR + ((j - 1) * nR + r)
  {
    MulSucc(j - 1, nR);
  }

  /** The rows after the first block are the melt of the remaining columns. */
  lemma MeltShift(t: WideTable, k: nat)
    requires WellFormed(t) && 0 < |t.columns|
    requires k < |Melt(WideTable(t.rows, t.columns[1..]))|
    ensures |t.rows| + k < |Melt(t)|
    ensures Melt(t)[|t.rows| + k] == Melt(WideTable(t.rows, t.columns[1..]))[k]
  {
    var block := MeltColumn(t.rows, t.columns[0]);
    assert Melt(t) == block + Melt(WideTable(t.rows, t.columns[1..]));
  }

  lemma MulSucc(a: nat, b: nat)
    ensures (a + 1) * b == b + a * b
  {
  }

  lemma MulMono(a: nat, c: nat, b: nat)
    requires a <= c
    ensures a * b <= c * b
  {
  }

  /** The same fact read from the output side: record k comes from row
      k mod R and column k div R. */
  lemma MeltIndex(t: WideTable, k: nat)
    requires WellFormed(t) && k < |t.rows| * |t.columns|
    ensures |t.rows| > 0
    ensures |Melt(t)| == |t.rows| * |t.columns|
    ensures k / |t.rows| < |t.columns|
    ensures Melt(t)[k] == CellRow(t, k % |t.rows|, k / |t.rows|)
  {
    MeltLength(t);
    var j, r := IndexSplit(k, |t.rows|, |t.columns|);
    MeltCell(t, j, r);
    assert Melt(t)[k] == Melt(t)[j * |t.rows| + r];
    assert CellRow(t, k % |t.rows|, k / |t.rows|) == CellRow(t, r, j);
  }

  /** An index below R * C splits into a column k div R and a row k mod R. */
  lemma IndexSplit(k: nat, nR: nat, nC: nat) returns (j: nat, r: nat)
    requires k < nR * nC
    ensures nR > 0 && j == k / nR && r == k % nR
    ensures j < nC && r < nR && k == j * nR + r
  {
    if nR == 0 {
      assert false;
    }
    j, r := k / nR, k % nR;
    if j >= nC {
      MulMono(nC, j, nR);
      assert false;
    }
  }

  // ------------------------------------------------------- year conversion

  /** `int(header)` for the year headers. */
  function ParseYear(header: string): Option<int>
  {
    match Numerals.ParseInt(header, 10)
    case None => None
    case Some(n) => Some(n)
  }

  function ToRecord(row: LongRow, year: int): Record
  {
    Record(row.ids.region, row.ids.country, row.ids.regimeType, year, row.index)
  }

  /** `df["Year"] = df["Year"].astype(int)`: every header must convert,
      otherwise the first one that does not is reported. */
  function ConvertYears(long: seq<LongRow>): (r: Result<seq<Record>, SetupError>)
    ensures r.Success? <==> forall k :: 0 <= k < |long| ==> ParseYear(long[k].yearHeader).Some?
    ensures r.Success? ==> |r.value| == |long|
    ensures r.Success? ==> forall k :: 0 <= k < |long| ==>
      r.value[k] == ToRecord(long[k], ParseYear(long[k].yearHeader).value)
    ensures r.Failure? ==> exists k :: (0 <= k < |long| && r.error == InvalidYear(long[k].yearHeader)
      && ParseYear(long[k].yearHeader).None?
      && forall k' :: 0 <= k' < k ==> ParseYear(long[k'].yearHeader).Some?)
  {
    if long == [] then Success([])
    else match ParseYear(long[0].yearHeader)
      case None => Failure(InvalidYear(long[0].yearHeader))
      case Some(y) =>
        match ConvertYears(long[1..])
        case Failure(e) =>
          assert forall k :: 1 <= k < |long| ==> long[1..][k - 1] == long[k];
          Failure(e)
        case Success(rest) => Success([ToRecord(long[0], y)] + rest)
  }

  /** The whole of `_setup_data` after the drop step. */
  function MeltAndConvert(t: WideTable): Result<seq<Record>, SetupError>
    requires WellFormed(t)
  {
    ConvertYears(Melt(t))
  }

  /** `_setup_data` of src/data.py. */
  function SetupRankDropped(raw: WideTable): Result<seq<Record>, SetupError>
    requires WellFormed(raw)
  {
    MeltAndConvert(DropRankColumns(raw))
  }

  /** `_setup_data` of src/dataset.py and code/economist_democracy.py. */
  function SetupDropping(raw: WideTable, rankColumn: string): Result<seq<Record>, SetupError>
    requires WellFormed(raw)
  {
    match DropColumn(raw, rankColumn)
    case Failure(e) => Failure(e)
    case Success(t) => MeltAndConvert(t)
  }

  /** Melting then converting succeeds exactly when there are no rows or
      every remaining header is an integer. */
  lemma MeltAndConvertSucceeds(t: WideTable)
    requires WellFormed(t)
    ensures MeltAndConvert(t).Success? <==>
      |t.rows| == 0 || forall j :: 0 <= j < |t.columns| ==> ParseYear(t.columns[j].name).Some?
  {
    MeltLength(t);
    if |t.rows| == 0 {
      assert |Melt(t)| == 0;
    } else if forall j :: 0 <= j < |t.columns| ==> ParseYear(t.columns[j].name).Some? {
      MeltYearsParse(t);
    } else {
      var j :| 0 <= j < |t.columns| && ParseYear(t.columns[j].name).None?;
      MeltBadYear(t, j);
    }
  }

  /** Every melted header parses when every column header does. */
  lemma MeltYearsParse(t: WideTable)
    requires WellFormed(t)
    requires forall j :: 0 <= j < |t.columns| ==> ParseYear(t.columns[j].name).Some?
    ensures forall k :: 0 <= k < |Melt(t)| ==> ParseYear(Melt(t)[k].yearHeader).Some?
  {
    MeltLength(t);
    forall k | 0 <= k < |Melt(t)| ensures ParseYear(Melt(t)[k].yearHeader).Some? {
      MeltIndex(t, k);
    }
  }

  /** One header that is not an integer fails the conversion when there is a
      row to carry it into the long table. */
  lemma MeltBadYear(t: WideTable, j: nat)
    requires WellFormed(t) && 0 < |t.rows|
    requires j < |t.columns| && ParseYear(t.columns[j].name).None?
    ensures MeltAndConvert(t).Failure?
  {
    MeltCell(t, j, 0);
    assert ParseYear(Melt(t)[j * |t.rows|].yearHeader).None?;
  }

  /** On success there is one record per (row, column) cell of the kept
      columns: row r of column j sits at position j * R + r and carries the
      static fields of row r, the integer year of column j and the cell's
      value. */
  lemma MeltAndConvertCell(t: WideTable, j: nat, r: nat)
    requires WellFormed(t) && MeltAndConvert(t).Success?
    requires j < |t.columns| && r < |t.rows|
    ensures |MeltAndConvert(t).value| == |t.rows| * |t.columns|
    ensures j * |t.rows| + r < |MeltAndConvert(t).value|
    ensures ParseYear(t.columns[j].name).Some?
    ensures MeltAndConvert(t).value[j * |t.rows| + r] ==
      Record(t.rows[r].region, t.rows[r].country, t.rows[r].regimeType,
             ParseYear(t.columns[j].name).value, t.columns[j].values[r])
  {
    var long := Melt(t);
    var recs := MeltAndConvert(t).value;
    MeltLength(t);
    MeltCell(t, j, r);
    var k := j * |t.rows| + r;
    assert recs[k] == ToRecord(long[k], ParseYear(long[k].yearHeader).value);
  }

  /** src/data.py end to end: on success there are R x Y records, Y the
      number of columns without " rank" in their header, and record
      j * R + r comes from row r and the j-th such column, in CSV order. */
  lemma SetupRankDroppedCell(raw: WideTable, j: nat, r: nat)
    requires WellFormed(raw) && SetupRankDropped(raw).Success?
    requires j < |KeepColumns(raw.columns, RankColumns)| && r < |raw.rows|
    ensures var kept := KeepColumns(raw.columns, RankColumns);
      && |SetupRankDropped(raw).value| == |raw.rows| * |kept|
      && j * |raw.rows| + r < |SetupRankDropped(raw).value|
      && ParseYear(kept[j].name).Some?
      && SetupRankDropped(raw).value[j * |raw.rows| + r] ==
        Record(raw.rows[r].region, raw.rows[r].country, raw.rows[r].regimeType,
               ParseYear(kept[j].name).value, kept[j].values[r])
  {
    MeltAndConvertCell(DropRankColumns(raw), j, r);
  }

  /** src/dataset.py and code/economist_democracy.py end to end: on success
      there are R x Y records, Y the number of columns other than the dropped
      one, and record j * R + r comes from row r and the j-th such column. */
  lemma SetupDroppingCell(raw: WideTable, name: string, j: nat, r: nat)
    requires WellFormed(raw) && SetupDropping(raw, name).Success?
    requires j < |KeepColumns(raw.columns, Named(name))| && r < |raw.rows|
    ensures var kept := KeepColumns(raw.columns, Named(name));
      && |SetupDropping(raw, name).value| == |raw.rows| * |kept|
      && j * |raw.rows| + r < |SetupDropping(raw, name).value|
      && ParseYear(kept[j].name).Some?
      && SetupDropping(raw, name).value[j * |raw.rows| + r] ==
        Record(raw.rows[r].region, raw.rows[r].country, raw.rows[r].regimeType,
               ParseYear(kept[j].name).value, kept[j].values[r])
  {
    MeltAndConvertCell(DropColumn(raw, name).value, j, r);
  }
}
