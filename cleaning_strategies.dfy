/**
 * The cleaning strategies: a column-to-dtype map applied column by column,
 * the optional equality filter, the two cleaning pipelines (tab- or
 * comma-separated wide tables, and JSON long tables) and the choice of
 * strategy by file extension.
 */
module CleaningStrategies {
  import opened Wrappers
  import opened Seqs
  import opened Strings
  import opened ValueExtraction
  import opened Frames
  import opened Reshape
  import opened Regions

  /** The two concrete strategies. */
  datatype Format = Csv | Json

  /** A `col_dtypes` dict: its (column, dtype) entries in insertion order. */
  type Dtypes = seq<(string, DType)>

  /** Dict keys are distinct. */
  predicate DistinctKeys(ds: Dtypes)
  {
    forall i, j :: 0 <= i < j < |ds| ==> ds[i].0 != ds[j].0
  }

  /** A dict of dtypes: entries with distinct keys. */
  type DtypeMap = ds: Dtypes | DistinctKeys(ds) witness []

  /** `{"year": np.int64, "value": float}`. */
  const DefaultDtypes: Dtypes := [(YearColumn, Int64), (ValueColumn, Float)]

  /** `ds.get(c)`: the dtype of the first entry for `c`, if there is one. */
  function Lookup(ds: Dtypes, c: string): (r: Option<DType>)
    ensures r.None? <==> forall k :: 0 <= k < |ds| ==> ds[k].0 != c
    ensures r.Some? ==> exists k :: 0 <= k < |ds| && ds[k] == (c, r.value) &&
                                    forall j :: 0 <= j < k ==> ds[j].0 != c
    decreases |ds|
  {
    if ds == [] then None
    else if ds[0].0 == c then Some(ds[0].1)
    else
      var r := Lookup(ds[1..], c);
      if r.Some? then
        var k :| 0 <= k < |ds[1..]| && ds[1..][k] == (c, r.value) &&
                 forall j :: 0 <= j < k ==> ds[1..][j].0 != c;
        assert ds[k + 1] == (c, r.value);
        assert forall j :: 0 <= j < k + 1 ==> ds[j].0 != c by {
          forall j | 0 <= j < k + 1 ensures ds[j].0 != c {
            if j > 0 { assert ds[j] == ds[1..][j - 1]; }
          }
        }
        r
      else r
  }

  /** The default map has exactly two entries: `year` to int64 and `value` to float. */
  lemma DefaultDtypesSpec()
    ensures DistinctKeys(DefaultDtypes)
    ensures forall c :: Lookup(DefaultDtypes, c) ==
                        if c == YearColumn then Some(Int64) else if c == ValueColumn then Some(Float) else None
  {
  }

  // ---------------------------------------------------------------------
  // _ensure_data_types
  // ---------------------------------------------------------------------

  /**
   * `_ensure_data_types` on a value: the listed columns converted one after
   * another, in the order of the map; the first failure raises.
   */
  function ConvertAll(f: Frame, ds: Dtypes): (r: Result<Frame, Error>)
    ensures r.Success? ==> r.value.columns == f.columns && |r.value.records| == |f.records|
    decreases |ds|
  {
    if ds == [] then Success(f)
    else
      match ConvertColumn(f, ds[0].0, ds[0].1)
      case Failure(e) => Failure(e)
      case Success(g) => ConvertAll(g, ds[1..])
  }

  /** Every listed column exists and every one of its cells converts. */
  predicate AllConvert(f: Frame, ds: Dtypes)
  {
    forall k :: 0 <= k < |ds| ==> ds[k].0 in f.columns && RecordsConvert(f.records, ds[k].0, ds[k].1)
  }

  /** Every cell of the given rows in a listed column converts. */
  predicate RowsConvert(ws: seq<Row>, ds: Dtypes)
  {
    forall k, w :: 0 <= k < |ds| && w in ws ==> ConvertCell(CellAt(w, ds[k].0), ds[k].1).Some?
  }

  lemma AllConvertRows(f: Frame, ds: Dtypes)
    ensures AllConvert(f, ds) <==>
      (forall k :: 0 <= k < |ds| ==> ds[k].0 in f.columns) && RowsConvert(Rows(f.records), ds)
  {
    forall k | 0 <= k < |ds| {
      RecordsConvertRows(f.records, ds[k].0, ds[k].1);
    }
  }

  /** Cell `c` of `row` once `ds` is applied: converted when `ds` lists `c`, as it was otherwise. */
  function ConvertedCell(row: Row, ds: Dtypes, c: string): Cell
  {
    match Lookup(ds, c)
    case None => CellAt(row, c)
    case Some(dt) =>
      (match ConvertCell(CellAt(row, c), dt)
       case Some(v) => v
       case None => Missing)
  }

  /** A row once `ds` is applied: the same labels, each cell converted as listed. */
  function ConvertRow(row: Row, ds: Dtypes): (w: Row)
    ensures w.Keys == row.Keys
  {
    map c | c in row :: ConvertedCell(row, ds, c)
  }

  /**
   * `g` is `f` with `ds` applied: record for record the same label and the
   * same column labels, each cell as `ConvertedCell` gives it.
   */
  ghost predicate ConvertedFrom(g: Frame, f: Frame, ds: Dtypes)
  {
    |g.records| == |f.records| &&
    forall i :: 0 <= i < |f.records| ==>
      g.records[i].index == f.records[i].index &&
      (forall c :: c in g.records[i].row <==> c in f.records[i].row) &&
      (forall c :: CellAt(g.records[i].row, c) == ConvertedCell(f.records[i].row, ds, c))
  }

  /**
   * Applying a dict with distinct keys succeeds exactly when every listed
   * column exists and all its cells convert; then the frame stays well
   * formed, every record keeps its label and its set of columns, the listed
   * columns hold their converted cells and every other column is unchanged.
   */
  lemma {:induction false} ConvertAllSpec(f: Frame, ds: Dtypes)
    requires WellFormed(f) && DistinctKeys(ds)
    ensures ConvertAll(f, ds).Success? <==> AllConvert(f, ds)
    ensures ConvertAll(f, ds).Success? ==>
      WellFormed(ConvertAll(f, ds).value) && ConvertedFrom(ConvertAll(f, ds).value, f, ds)
    decreases |ds|
  {
    if ds != [] {
      ConvertColumnSpec(f, ds[0].0, ds[0].1);
      var h := ConvertColumn(f, ds[0].0, ds[0].1);
      if h.Success? {
        DistinctKeysTail(ds);
        ConvertAllSpec(h.value, ds[1..]);
        AllConvertStep(f, ds, h.value);
        if ConvertAll(f, ds).Success? {
          ConvertedFromStep(f, h.value, ConvertAll(f, ds).value, ds);
        }
      }
    }
  }

  lemma DistinctKeysTail(ds: Dtypes)
    requires ds != [] && DistinctKeys(ds)
    ensures DistinctKeys(ds[1..])
    ensures Lookup(ds[1..], ds[0].0).None?
  {
    var rest := ds[1..];
    forall i, j | 0 <= i < j < |rest| ensures rest[i].0 != rest[j].0 {
      assert rest[i] == ds[i + 1] && rest[j] == ds[j + 1];
    }
    forall k | 0 <= k < |rest| ensures rest[k].0 != ds[0].0 {
      assert rest[k] == ds[k + 1];
    }
  }

  /** The first column converted, the rest of the dict converts on the result exactly when all of it converts on the input. */
  lemma AllConvertStep(f: Frame, ds: Dtypes, g1: Frame)
    requires WellFormed(f) && DistinctKeys(ds) && ds != []
    requires ConvertColumn(f, ds[0].0, ds[0].1) == Success(g1)
    ensures AllConvert(f, ds) <==> AllConvert(g1, ds[1..])
  {
    var col, dt := ds[0].0, ds[0].1;
    var rest := ds[1..];
    ConvertColumnSpec(f, col, dt);
    forall k | 0 <= k < |rest|
      ensures RecordsConvert(g1.records, rest[k].0, rest[k].1) <==> RecordsConvert(f.records, rest[k].0, rest[k].1)
    {
      assert rest[k] == ds[k + 1];
      RecordsConvertSameCells(f.records, g1.records, rest[k].0, rest[k].1);
    }
    if AllConvert(g1, rest) {
      forall k | 0 <= k < |ds|
        ensures ds[k].0 in f.columns && RecordsConvert(f.records, ds[k].0, ds[k].1)
      {
        if k > 0 {
          assert ds[k] == rest[k - 1];
        }
      }
    }
    if AllConvert(f, ds) {
      forall k | 0 <= k < |rest|
        ensures rest[k].0 in g1.columns && RecordsConvert(g1.records, rest[k].0, rest[k].1)
      {
        assert rest[k] == ds[k + 1];
      }
    }
  }

  /** Converting the first column and then the rest is converting with the whole dict. */
  lemma ConvertedFromStep(f: Frame, g1: Frame, g: Frame, ds: Dtypes)
    requires WellFormed(f) && DistinctKeys(ds) && ds != []
    requires ConvertColumn(f, ds[0].0, ds[0].1) == Success(g1)
    requires ConvertedFrom(g, g1, ds[1..])
    ensures ConvertedFrom(g, f, ds)
  {
    var col, dt := ds[0].0, ds[0].1;
    ConvertColumnSpec(f, col, dt);
    ConvertRecordsSpec(f.records, col, dt);
    DistinctKeysTail(ds);
    forall i, c | 0 <= i < |f.records|
      ensures CellAt(g.records[i].row, c) == ConvertedCell(f.records[i].row, ds, c)
    {
      assert f.records[i] in f.records;
      ConvertedCellStep(f.records[i].row, g1.records[i].row, ds, c);
    }
  }

  /** One cell: the first entry applied, the rest of the dict gives what the whole dict gives. */
  lemma ConvertedCellStep(row: Row, row1: Row, ds: Dtypes, c: string)
    requires ds != [] && Lookup(ds[1..], ds[0].0).None?
    requires ConvertCell(CellAt(row, ds[0].0), ds[0].1).Some?
    requires forall d :: CellAt(row1, d) ==
                         (if d == ds[0].0 then ConvertCell(CellAt(row, ds[0].0), ds[0].1).value else CellAt(row, d))
    ensures ConvertedCell(row1, ds[1..], c) == ConvertedCell(row, ds, c)
  {
  }

  /** Whether a column converts depends only on the cells of that column. */
  lemma RecordsConvertSameCells(a: seq<Record>, b: seq<Record>, col: string, dt: DType)
    requires |a| == |b| && forall i :: 0 <= i < |a| ==> CellAt(a[i].row, col) == CellAt(b[i].row, col)
    ensures RecordsConvert(a, col, dt) <==> RecordsConvert(b, col, dt)
  {
    if RecordsConvert(a, col, dt) {
      forall r | r in b ensures ConvertCell(CellAt(r.row, col), dt).Some? {
        var i :| 0 <= i < |b| && b[i] == r;
        assert a[i] in a;
      }
    }
    if RecordsConvert(b, col, dt) {
      forall r | r in a ensures ConvertCell(CellAt(r.row, col), dt).Some? {
        var i :| 0 <= i < |a| && a[i] == r;
        assert b[i] in b;
      }
    }
  }

  /** A row with the same labels and the converted cells is the converted row. */
  lemma ConvertRowUnique(row: Row, w: Row, ds: Dtypes)
    requires forall c :: c in w <==> c in row
    requires forall c :: CellAt(w, c) == ConvertedCell(row, ds, c)
    ensures w == ConvertRow(row, ds)
  {
    var v := ConvertRow(row, ds);
    forall c | c in w ensures w[c] == v[c] {
      assert CellAt(w, c) == w[c];
    }
  }

  /** On success the rows of the result are the rows of the input with `ds` applied. */
  lemma ConvertAllRows(f: Frame, ds: Dtypes)
    requires WellFormed(f) && DistinctKeys(ds) && ConvertAll(f, ds).Success?
    ensures forall i :: 0 <= i < |f.records| ==>
      ConvertAll(f, ds).value.records[i].row == ConvertRow(f.records[i].row, ds)
  {
    ConvertAllSpec(f, ds);
    var g := ConvertAll(f, ds).value;
    forall i | 0 <= i < |f.records| ensures g.records[i].row == ConvertRow(f.records[i].row, ds) {
      ConvertRowUnique(f.records[i].row, g.records[i].row, ds);
    }
  }

  // ---------------------------------------------------------------------
  // _filter_col
  // ---------------------------------------------------------------------

  /** `df[col] == value` on one record. */
  function Matches(col: string, value: string): Record -> bool
  {
    (r: Record) => CellAt(r.row, col) == Text(value)
  }

  /** `df[col] == value` on one row. */
  function RowMatches(col: string, value: string): Row -> bool
  {
    (w: Row) => CellAt(w, col) == Text(value)
  }

  /**
   * `_filter_col`: no filtering unless both the column and the value are
   * given; then `df[df[col] == value]`, which raises a KeyError on an
   * unknown column.
   */
  function FilterCol(f: Frame, col: Option<string>, value: Option<string>): (r: Result<Frame, Error>)
    ensures r.Failure? <==> col.Some? && value.Some? && col.value !in f.columns
    ensures r.Success? ==> r.value.columns == f.columns
  {
    if col.None? || value.None? then Success(f)
    else if col.value !in f.columns then Failure(MissingColumn(col.value))
    else Success(Frame(f.columns, Filter(f.records, Matches(col.value, value.value))))
  }

  /**
   * Without a column or a value the frame comes back unchanged; with both,
   * exactly the records whose cell equals the value remain, in their order
   * and with their labels.
   */
  lemma FilterColSpec(f: Frame, col: Option<string>, value: Option<string>)
    ensures col.None? || value.None? ==> FilterCol(f, col, value) == Success(f)
    ensures col.Some? && value.Some? && col.value in f.columns ==>
      var g := FilterCol(f, col, value).value;
      IsSubsequence(g.records, f.records) &&
      (forall r :: r in g.records <==> r in f.records && CellAt(r.row, col.value) == Text(value.value)) &&
      |g.records| == Count(f.records, Matches(col.value, value.value))
  {
    if col.Some? && value.Some? && col.value in f.columns {
      var p := Matches(col.value, value.value);
      FilterContains(f.records, p);
      FilterIsSubsequence(f.records, p);
      FilterCount(f.records, p);
    }
  }

  // ---------------------------------------------------------------------
  // dropna, filter, reset_index: the tail both pipelines share
  // ---------------------------------------------------------------------

  /** `country.name if country is not None else None`. */
  function RegionName(country: Option<Region>): (r: Option<string>)
    ensures r.Some? <==> country.Some?
    ensures r.Some? ==> FromName(r.value) == country
  {
    if country.None? then None
    else
      FromNameIsInverse(Name(country.value), country.value);
      Some(Name(country.value))
  }

  /**
   * Drop every record with a null, keep the records of the requested region
   * when one is given, and renumber.
   */
  function Finish(typed: Frame, regionName: Option<string>): (r: Result<Frame, Error>)
    ensures r.Failure? <==> regionName.Some? && RegionColumn !in typed.columns
    ensures r.Success? ==> r.value.columns == typed.columns && |r.value.records| <= |typed.records|
  {
    var filtered :- FilterCol(DropNa(typed), Some(RegionColumn), regionName);
    Success(ResetIndex(filtered))
  }

  /**
   * The shared tail fails only when a region is asked for and there is no
   * region column. Its result is well formed with the same columns, has no
   * null anywhere and is numbered 0, 1, 2, ...; without a region its rows
   * are the null-free rows of the input in order, with one they are exactly
   * those of them whose region is the requested one.
   */
  lemma FinishSpec(typed: Frame, regionName: Option<string>)
    requires WellFormed(typed)
    ensures Finish(typed, regionName).Failure? <==> regionName.Some? && RegionColumn !in typed.columns
    ensures Finish(typed, None).Success? &&
      Rows(Finish(typed, None).value.records) == Filter(Rows(typed.records), NoNulls)
    ensures Finish(typed, regionName).Success? ==>
      var g := Finish(typed, regionName).value;
      WellFormed(g) && g.columns == typed.columns &&
      (forall w :: w in Rows(g.records) ==> NoNulls(w)) &&
      (forall i :: 0 <= i < |g.records| ==> g.records[i].index == i)
    ensures Finish(typed, regionName).Success? && regionName.Some? ==>
      var g := Finish(typed, regionName).value;
      (forall w :: w in Rows(g.records) ==> CellAt(w, RegionColumn) == Text(regionName.value)) &&
      Rows(g.records) == Filter(Rows(Finish(typed, None).value.records), RowMatches(RegionColumn, regionName.value))
  {
    var dropped := DropNa(typed);
    RowsFilter(typed.records, Complete, NoNulls);
    FilterContains(Rows(typed.records), NoNulls);
    ResetIndexSpec(dropped);
    WellFormedByRows(typed);
    WellFormedByRows(dropped);
    var filtered := FilterCol(dropped, Some(RegionColumn), regionName);
    if filtered.Success? {
      var g := ResetIndex(filtered.value);
      ResetIndexSpec(filtered.value);
      if regionName.Some? {
        var n := regionName.value;
        RowsFilter(dropped.records, Matches(RegionColumn, n), RowMatches(RegionColumn, n));
        FilterContains(Rows(dropped.records), RowMatches(RegionColumn, n));
      }
      WellFormedByRows(g);
    }
  }

  // ---------------------------------------------------------------------
  // CSVCleaningStrategy.clean_data
  // ---------------------------------------------------------------------

  /** Lines 97-106: split the identifier, unpivot, extract the values and apply the dtypes. */
  function CsvTyped(df: Frame, ds: Dtypes): (r: Result<Frame, Error>)
    ensures IdColumn !in df.columns ==> r == Failure(MissingColumn(IdColumn))
    ensures r.Success? ==> r.value.columns == LongColumns
  {
    var split :- SplitIdentifier(df);
    var long :- Melt(split);
    ConvertAll(ExtractValues(long), ds)
  }

  /** `CSVCleaningStrategy(ds).clean_data(df, country)`. */
  function CsvClean(df: Frame, ds: Dtypes, country: Option<Region>): (r: Result<Frame, Error>)
    ensures r.Success? <==> CsvTyped(df, ds).Success?
    ensures r.Failure? ==> r.error == CsvTyped(df, ds).error
    ensures r.Success? ==> r.value.columns == LongColumns
  {
    var typed :- CsvTyped(df, ds);
    Finish(typed, RegionName(country))
  }

  /** Every wide row under every year column, split, unpivoted and extracted, year column by year column. */
  function LongRows(rows: seq<Row>, years: seq<string>): seq<Row>
  {
    var melted := MeltRows(SplitRows(rows), years);
    seq(|melted|, p requires 0 <= p < |melted| => ExtractRow(melted[p]))
  }

  /** The long rows with the dtypes applied. */
  function CleanRows(rows: seq<Row>, years: seq<string>, ds: Dtypes): seq<Row>
  {
    var long := LongRows(rows, years);
    seq(|long|, p requires 0 <= p < |long| => ConvertRow(long[p], ds))
  }

  /**
   * There is one long row per wide row and year column, and position
   * `j * n + i` holds wide row `i` under year column `j`.
   */
  lemma CleanRowsAt(rows: seq<Row>, years: seq<string>, ds: Dtypes, j: nat, i: nat)
    requires j < |years| && i < |rows|
    ensures |CleanRows(rows, years, ds)| == |years| * |rows|
    ensures j * |rows| + i < |CleanRows(rows, years, ds)|
    ensures CleanRows(rows, years, ds)[j * |rows| + i] == ConvertRow(LongRow(rows[i], years[j]), ds)
  {
    var split := SplitRows(rows);
    MeltRowsLength(split, years);
    MeltRowsAt(split, years, j, i);
    var p := j * |rows| + i;
    var melted := MeltRows(split, years);
    assert melted[p] == MeltRow(SplitRow(rows[i]), years[j]);
    assert LongRows(rows, years)[p] == ExtractRow(melted[p]);
  }

  /** The clean row of each (wide row, year column) pair occurs in the long table. */
  lemma CleanRowIn(rows: seq<Row>, years: seq<string>, ds: Dtypes, j: nat, i: nat)
    requires j < |years| && i < |rows|
    ensures ConvertRow(LongRow(rows[i], years[j]), ds) in CleanRows(rows, years, ds)
  {
    CleanRowsAt(rows, years, ds, j, i);
    var p := j * |rows| + i;
    assert CleanRows(rows, years, ds)[p] in CleanRows(rows, years, ds);
  }

  /** Every long row comes from one wide row and one year column. */
  lemma CleanRowsFrom(rows: seq<Row>, years: seq<string>, ds: Dtypes, p: nat)
    requires p < |CleanRows(rows, years, ds)|
    ensures |CleanRows(rows, years, ds)| == |years| * |rows|
    ensures exists i, j :: (0 <= i < |rows| && 0 <= j < |years| &&
                            CleanRows(rows, years, ds)[p] == ConvertRow(LongRow(rows[i], years[j]), ds))
  {
    MeltRowsLength(SplitRows(rows), years);
    MeltRowsFrom(SplitRows(rows), years, p);
  }

  /**
   * Up to the dtypes the pipeline raises a KeyError without the identifier
   * column and a clash when a `value` column exists; with both in order it
   * succeeds exactly when every listed column is a long column and all its
   * cells convert. The result is well formed, has the long columns, and its
   * rows are the clean rows in order.
   */
  lemma CsvTypedSpec(df: Frame, ds: Dtypes)
    requires DistinctKeys(ds)
    ensures IdColumn !in df.columns ==> CsvTyped(df, ds) == Failure(MissingColumn(IdColumn))
    ensures IdColumn in df.columns && ValueColumn in df.columns ==> CsvTyped(df, ds) == Failure(ColumnClash(ValueColumn))
    ensures CsvTyped(df, ds).Success? <==>
      IdColumn in df.columns && ValueColumn !in df.columns &&
      (forall k :: 0 <= k < |ds| ==> ds[k].0 in LongColumns) &&
      RowsConvert(LongRows(Rows(df.records), YearColumns(df.columns)), ds)
    ensures CsvTyped(df, ds).Success? ==>
      var typed := CsvTyped(df, ds).value;
      WellFormed(typed) && typed.columns == LongColumns &&
      Rows(typed.records) == CleanRows(Rows(df.records), YearColumns(df.columns), ds)
  {
    if IdColumn in df.columns {
      var split := SplitIdentifier(df).value;
      SplitIdentifierSpec(df);
      if ValueColumn !in df.columns {
        assert ValueColumn !in split.columns;
        var long := Melt(split).value;
        MeltSpec(split);
        SplitYears(df);
        var rows := Rows(df.records);
        var years := YearColumns(df.columns);
        assert Rows(split.records) == SplitRows(rows);
        var ext := ExtractValues(long);
        ExtractValuesSpec(long);
        assert Rows(ext.records) == LongRows(rows, years);
        ConvertAllSpec(ext, ds);
        AllConvertRows(ext, ds);
        if ConvertAll(ext, ds).Success? {
          ConvertAllRows(ext, ds);
        }
      }
    }
  }

  /**
   * The delimited-text cleaning succeeds exactly when its typed stage does
   * (the region column is always there). Its result is well formed with the
   * long columns, has no null and is numbered 0, 1, 2, ... Without a country
   * its rows are the null-free clean rows in order; with one, exactly those
   * of them whose region is the country's name.
   */
  lemma CsvCleanSpec(df: Frame, ds: Dtypes, country: Option<Region>)
    requires DistinctKeys(ds)
    ensures CsvClean(df, ds, country).Success? <==> CsvTyped(df, ds).Success?
    ensures CsvClean(df, ds, None).Success? ==>
      Rows(CsvClean(df, ds, None).value.records) ==
      Filter(CleanRows(Rows(df.records), YearColumns(df.columns), ds), NoNulls)
    ensures CsvClean(df, ds, country).Success? ==>
      var g := CsvClean(df, ds, country).value;
      WellFormed(g) && g.columns == LongColumns &&
      (forall w :: w in Rows(g.records) ==> NoNulls(w)) &&
      (forall i :: 0 <= i < |g.records| ==> g.records[i].index == i)
    ensures CsvClean(df, ds, country).Success? && country.Some? ==>
      var g := CsvClean(df, ds, country).value;
      (forall w :: w in Rows(g.records) ==> CellAt(w, RegionColumn) == Text(Name(country.value))) &&
      Rows(g.records) == Filter(Rows(CsvClean(df, ds, None).value.records), RowMatches(RegionColumn, Name(country.value)))
  {
    CsvTypedSpec(df, ds);
    if CsvTyped(df, ds).Success? {
      var typed := CsvTyped(df, ds).value;
      FinishSpec(typed, RegionName(country));
      FinishSpec(typed, None);
    }
  }

  lemma CleanRowsLength(rows: seq<Row>, years: seq<string>, ds: Dtypes)
    ensures |CleanRows(rows, years, ds)| == |years| * |rows|
  {
    MeltRowsLength(SplitRows(rows), years);
  }

  /** The cleaned table has at most one row per wide row and year column. */
  lemma CsvCleanLength(df: Frame, ds: Dtypes, country: Option<Region>)
    requires DistinctKeys(ds) && CsvClean(df, ds, country).Success?
    ensures |CsvClean(df, ds, country).value.records| <= |df.records| * |YearColumns(df.columns)|
  {
    CsvCleanSpec(df, ds, country);
    CsvCleanSpec(df, ds, None);
    var clean := CleanRows(Rows(df.records), YearColumns(df.columns), ds);
    CleanRowsLength(Rows(df.records), YearColumns(df.columns), ds);
    var none := CsvClean(df, ds, None).value;
    assert |Rows(none.records)| <= |clean|;
    if country.Some? {
      var g := CsvClean(df, ds, country).value;
      assert |Rows(g.records)| <= |Rows(none.records)|;
    }
  }

  /**
   * With the default dtypes a clean row carries the four parts of its
   * identifier, the year header read as an int64 and the extracted value as
   * a number of tenths (null when either does not convert).
   */
  lemma CleanRowDefault(row: Row, year: string)
    requires IsYearColumn(year)
    ensures var w := ConvertRow(LongRow(row, year), DefaultDtypes);
      var ks := IdentifierParts(CellAt(row, IdColumn));
      var v := ExtractCell(CellAt(row, year));
      HasColumns(w, LongColumns) &&
      w[Unit] == ks[0] && w[Sex] == ks[1] && w[Age] == ks[2] && w[RegionColumn] == ks[3] &&
      w[YearColumn] == (match ConvertCell(Text(year), Int64) case Some(y) => y case None => Missing) &&
      w[ValueColumn] == (if v.Text? then Tenths(TenthsValue(v.s)) else Missing)
  {
    var l := LongRow(row, year);
    var v := ExtractCell(CellAt(row, year));
    LongRowFields(row, year);
    ConvertRowDefault(l);
    DefaultDtypesSpec();
    if v.Text? {
      ConvertExtractedValue(v.s);
    }
  }

  /**
   * A clean row under the default dtypes whose header converts has no null
   * exactly when its identifier split into four parts and a value was found.
   */
  lemma CleanRowDefaultComplete(row: Row, year: string)
    requires IsYearColumn(year) && ConvertCell(Text(year), Int64).Some?
    ensures var w := ConvertRow(LongRow(row, year), DefaultDtypes);
      NoNulls(w) <==> IdentifierParts(CellAt(row, IdColumn))[0].Text? && ExtractCell(CellAt(row, year)).Text?
  {
    CleanRowDefault(row, year);
    CleanRowNoNulls(ConvertRow(LongRow(row, year), DefaultDtypes));
  }

  /** A long row has no null exactly when none of its six cells is null. */
  lemma CleanRowNoNulls(w: Row)
    requires HasColumns(w, LongColumns)
    ensures NoNulls(w) <==>
      w[Unit] != Missing && w[Sex] != Missing && w[Age] != Missing && w[RegionColumn] != Missing &&
      w[YearColumn] != Missing && w[ValueColumn] != Missing
  {
  }

  /** The key cells, the header and the extracted value of one long row. */
  lemma LongRowFields(row: Row, year: string)
    requires IsYearColumn(year)
    ensures var l := LongRow(row, year);
      var ks := IdentifierParts(CellAt(row, IdColumn));
      l[Unit] == ks[0] && l[Sex] == ks[1] && l[Age] == ks[2] && l[RegionColumn] == ks[3] &&
      l[YearColumn] == Text(year) && l[ValueColumn] == ExtractCell(CellAt(row, year))
  {
    SplitRowSpec(row);
  }

  /** The default dtypes convert the year and the value of a long row and nothing else. */
  lemma ConvertRowDefault(l: Row)
    requires HasColumns(l, LongColumns)
    ensures var w := ConvertRow(l, DefaultDtypes);
      HasColumns(w, LongColumns) &&
      w[Unit] == l[Unit] && w[Sex] == l[Sex] && w[Age] == l[Age] && w[RegionColumn] == l[RegionColumn] &&
      w[YearColumn] == ConvertedCell(l, DefaultDtypes, YearColumn) &&
      w[ValueColumn] == ConvertedCell(l, DefaultDtypes, ValueColumn)
  {
    DefaultDtypesSpec();
  }

  /**
   * The rows of the delimited-text output: the null-free clean rows, and of
   * those only the country's when a country is given.
   */
  lemma CsvCleanRows(df: Frame, ds: Dtypes, country: Option<Region>)
    requires DistinctKeys(ds) && CsvClean(df, ds, country).Success?
    ensures var clean := Filter(CleanRows(Rows(df.records), YearColumns(df.columns), ds), NoNulls);
      Rows(CsvClean(df, ds, country).value.records) ==
      if country.None? then clean else Filter(clean, RowMatches(RegionColumn, Name(country.value)))
  {
    CsvCleanSpec(df, ds, country);
    CsvCleanSpec(df, ds, None);
  }

  /**
   * Every row of the delimited-text output is the clean row of one wide row
   * under one year column; it has no null and, when a country is given, that
   * country's name as its region.
   */
  lemma CsvOutputFrom(df: Frame, ds: Dtypes, country: Option<Region>, w: Row)
    requires DistinctKeys(ds) && CsvClean(df, ds, country).Success?
    requires w in Rows(CsvClean(df, ds, country).value.records)
    ensures NoNulls(w)
    ensures country.Some? ==> CellAt(w, RegionColumn) == Text(Name(country.value))
    ensures exists i, j :: (0 <= i < |df.records| && 0 <= j < |YearColumns(df.columns)| &&
                            w == ConvertRow(LongRow(df.records[i].row, YearColumns(df.columns)[j]), ds))
  {
    var rows := Rows(df.records);
    var years := YearColumns(df.columns);
    var clean := CleanRows(rows, years, ds);
    CsvCleanRows(df, ds, country);
    FilterContains(clean, NoNulls);
    if country.Some? {
      FilterContains(Filter(clean, NoNulls), RowMatches(RegionColumn, Name(country.value)));
    }
    assert w in clean;
    var p :| 0 <= p < |clean| && clean[p] == w;
    CleanRowsFrom(rows, years, ds, p);
  }

  /**
   * Conversely, the clean row of any wide row under any year column that has
   * no null, and the country's name as region when a country is given, is
   * in the output.
   */
  lemma CsvOutputHas(df: Frame, ds: Dtypes, country: Option<Region>, i: nat, j: nat, w: Row)
    requires DistinctKeys(ds) && CsvClean(df, ds, country).Success?
    requires i < |df.records| && j < |YearColumns(df.columns)|
    requires w == ConvertRow(LongRow(df.records[i].row, YearColumns(df.columns)[j]), ds)
    requires NoNulls(w) && (country.Some? ==> CellAt(w, RegionColumn) == Text(Name(country.value)))
    ensures w in Rows(CsvClean(df, ds, country).value.records)
  {
    var rows := Rows(df.records);
    var years := YearColumns(df.columns);
    var clean := CleanRows(rows, years, ds);
    assert rows[i] == df.records[i].row;
    CleanRowIn(rows, years, ds, j, i);
    assert w in clean;
    FilterContains(clean, NoNulls);
    CsvCleanRows(df, ds, country);
    if country.Some? {
      FilterContains(Filter(clean, NoNulls), RowMatches(RegionColumn, Name(country.value)));
    }
  }

  // ---------------------------------------------------------------------
  // JSONCleaningStrategy.clean_data
  // ---------------------------------------------------------------------

  const CountryColumn := "country"
  const LifeExpectancyColumn := "life_expectancy"
  const FlagColumn := "flag"
  const FlagDetailColumn := "flag_detail"
  const FlagColumns := [FlagColumn, FlagDetailColumn]

  /** Lines 153-154: rename `country` and `life_expectancy`, then drop the two flag columns. */
  function JsonShaped(df: Frame): (r: Result<Frame, Error>)
    ensures CountryColumn in df.columns && RegionColumn in df.columns ==> r == Failure(ColumnClash(RegionColumn))
    ensures r.Success? ==> |r.value.records| == |df.records|
  {
    var renamed :- RenameFresh(df, CountryColumn, RegionColumn);
    var renamed2 :- RenameFresh(renamed, LifeExpectancyColumn, ValueColumn);
    DropColumns(renamed2, FlagColumns)
  }

  /** Lines 153-157: the renamed frame without flags, with the dtypes applied. */
  function JsonTyped(df: Frame, ds: Dtypes): (r: Result<Frame, Error>)
    ensures JsonShaped(df).Failure? ==> r == Failure(JsonShaped(df).error)
    ensures r.Success? ==> JsonShaped(df).Success? && r.value.columns == JsonShaped(df).value.columns
  {
    var shaped :- JsonShaped(df);
    ConvertAll(shaped, ds)
  }

  /** `JSONCleaningStrategy(ds).clean_data(df, country)`. */
  function JsonClean(df: Frame, ds: Dtypes, country: Option<Region>): (r: Result<Frame, Error>)
    ensures r.Success? ==> JsonTyped(df, ds).Success? && r.value.columns == JsonTyped(df, ds).value.columns
    ensures country.None? && JsonTyped(df, ds).Success? ==> r.Success?
  {
    var typed :- JsonTyped(df, ds);
    Finish(typed, RegionName(country))
  }

  /** One input row renamed and stripped of its flags. */
  function JsonRow(row: Row): (w: Row)
    ensures CountryColumn !in w && LifeExpectancyColumn !in w
    ensures FlagColumn !in w && FlagDetailColumn !in w
  {
    RenameRow(RenameRow(row, CountryColumn, RegionColumn), LifeExpectancyColumn, ValueColumn) -
      set n | n in FlagColumns
  }

  /** The input rows renamed and stripped, in order. */
  function JsonRows(rows: seq<Row>): seq<Row>
  {
    seq(|rows|, i requires 0 <= i < |rows| => JsonRow(rows[i]))
  }

  /** The input rows renamed, stripped and with the dtypes applied, in order. */
  function JsonCleanRows(rows: seq<Row>, ds: Dtypes): seq<Row>
  {
    seq(|rows|, i requires 0 <= i < |rows| => ConvertRow(JsonRow(rows[i]), ds))
  }

  /** `c` is a column of the JSON output of a frame with the given columns. */
  predicate IsJsonColumn(columns: seq<string>, c: string)
  {
    c !in FlagColumns &&
    ((c in columns && c != CountryColumn && c != LifeExpectancyColumn) ||
     (c == RegionColumn && CountryColumn in columns) ||
     (c == ValueColumn && LifeExpectancyColumn in columns))
  }

  /**
   * One row: `region` holds the country, `value` the life expectancy, the
   * flags and the old names are gone and every other cell is kept.
   */
  lemma JsonRowSpec(row: Row)
    ensures forall c :: c in JsonRow(row) <==>
      c !in FlagColumns &&
      ((c in row && c != CountryColumn && c != LifeExpectancyColumn) ||
       (c == RegionColumn && CountryColumn in row) ||
       (c == ValueColumn && LifeExpectancyColumn in row))
    ensures CountryColumn in row ==> JsonRow(row)[RegionColumn] == row[CountryColumn]
    ensures LifeExpectancyColumn in row ==> JsonRow(row)[ValueColumn] == row[LifeExpectancyColumn]
    ensures forall c :: c in JsonRow(row) && c != RegionColumn && c != ValueColumn ==> JsonRow(row)[c] == row[c]
  {
  }

  /** The columns after the two renames, before the flags are dropped. */
  lemma JsonRenamed(df: Frame)
    requires WellFormed(df)
    requires !(CountryColumn in df.columns && RegionColumn in df.columns)
    ensures RenameFresh(df, CountryColumn, RegionColumn).Success?
    ensures var r1 := RenameFresh(df, CountryColumn, RegionColumn).value;
      WellFormed(r1) &&
      (RenameFresh(r1, LifeExpectancyColumn, ValueColumn).Success? <==>
         !(LifeExpectancyColumn in df.columns && ValueColumn in df.columns))
    ensures var r1 := RenameFresh(df, CountryColumn, RegionColumn).value;
      var r2 := RenameFresh(r1, LifeExpectancyColumn, ValueColumn);
      r2.Success? ==>
        WellFormed(r2.value) && |r2.value.records| == |df.records| &&
        (forall c :: c in r2.value.columns <==>
           (c != CountryColumn && c != LifeExpectancyColumn && c in df.columns) ||
           (c == RegionColumn && CountryColumn in df.columns) ||
           (c == ValueColumn && LifeExpectancyColumn in df.columns)) &&
        forall i :: 0 <= i < |df.records| ==>
          r2.value.records[i].index == df.records[i].index &&
          r2.value.records[i].row ==
            RenameRow(RenameRow(df.records[i].row, CountryColumn, RegionColumn), LifeExpectancyColumn, ValueColumn)
  {
    RenameFreshSpec(df, CountryColumn, RegionColumn);
    var r1 := RenameFresh(df, CountryColumn, RegionColumn).value;
    if RenameFresh(r1, LifeExpectancyColumn, ValueColumn).Success? {
      RenameFreshSpec(r1, LifeExpectancyColumn, ValueColumn);
    }
  }

  /**
   * Reshaping raises on a rename onto a present column, then a KeyError for
   * the first missing flag column, and succeeds otherwise.
   */
  lemma JsonShapedErrors(df: Frame)
    requires WellFormed(df)
    ensures CountryColumn in df.columns && RegionColumn in df.columns ==>
      JsonShaped(df) == Failure(ColumnClash(RegionColumn))
    ensures (!(CountryColumn in df.columns && RegionColumn in df.columns) &&
             LifeExpectancyColumn in df.columns && ValueColumn in df.columns) ==>
      JsonShaped(df) == Failure(ColumnClash(ValueColumn))
    ensures (!(CountryColumn in df.columns && RegionColumn in df.columns) &&
             !(LifeExpectancyColumn in df.columns && ValueColumn in df.columns)) ==>
      (FlagColumn !in df.columns ==> JsonShaped(df) == Failure(MissingColumn(FlagColumn))) &&
      (FlagColumn in df.columns && FlagDetailColumn !in df.columns ==>
         JsonShaped(df) == Failure(MissingColumn(FlagDetailColumn)))
    ensures JsonShaped(df).Success? <==>
      !(CountryColumn in df.columns && RegionColumn in df.columns) &&
      !(LifeExpectancyColumn in df.columns && ValueColumn in df.columns) &&
      FlagColumn in df.columns && FlagDetailColumn in df.columns
  {
    if !(CountryColumn in df.columns && RegionColumn in df.columns) {
      JsonRenamed(df);
      var r1 := RenameFresh(df, CountryColumn, RegionColumn).value;
      var r2 := RenameFresh(r1, LifeExpectancyColumn, ValueColumn);
      if r2.Success? {
        var h := r2.value;
        assert FlagColumn in h.columns <==> FlagColumn in df.columns;
        assert FlagDetailColumn in h.columns <==> FlagDetailColumn in df.columns;
        assert FirstAbsent(FlagColumns, h.columns) ==
          if FlagColumn !in h.columns then Some(FlagColumn)
          else if FlagDetailColumn !in h.columns then Some(FlagDetailColumn)
          else None;
      }
    }
  }

  /**
   * After reshaping the frame is well formed with the JSON columns, and each
   * record keeps its label and holds the reshaped input row.
   */
  lemma JsonShapedSpec(df: Frame)
    requires WellFormed(df) && JsonShaped(df).Success?
    ensures var g := JsonShaped(df).value;
      WellFormed(g) && |g.records| == |df.records| &&
      (forall c :: c in g.columns <==> IsJsonColumn(df.columns, c)) &&
      forall i :: 0 <= i < |df.records| ==>
        g.records[i].index == df.records[i].index && g.records[i].row == JsonRow(df.records[i].row)
  {
    JsonRenamed(df);
    var r1 := RenameFresh(df, CountryColumn, RegionColumn).value;
    var h := RenameFresh(r1, LifeExpectancyColumn, ValueColumn).value;
    var g := JsonShaped(df).value;
    assert DropColumns(h, FlagColumns) == Success(g);
    DropColumnsSpec(h, FlagColumns);
    forall i | 0 <= i < |df.records|
      ensures g.records[i].row == JsonRow(df.records[i].row)
    {
      assert g.records[i].row == h.records[i].row - set n | n in FlagColumns;
    }
  }

  /** The rows after reshaping are the reshaped input rows. */
  lemma JsonShapedRows(df: Frame)
    requires WellFormed(df) && JsonShaped(df).Success?
    ensures Rows(JsonShaped(df).value.records) == JsonRows(Rows(df.records))
  {
    JsonShapedSpec(df);
  }

  /**
   * The JSON typed stage fails as reshaping does; after reshaping it
   * succeeds exactly when every listed column is a JSON column and all its
   * cells convert; its rows are then the reshaped input rows with the
   * dtypes applied, in order.
   */
  lemma JsonTypedSpec(df: Frame, ds: Dtypes)
    requires WellFormed(df) && DistinctKeys(ds)
    ensures JsonShaped(df).Failure? ==> JsonTyped(df, ds) == Failure(JsonShaped(df).error)
    ensures JsonTyped(df, ds).Success? <==>
      JsonShaped(df).Success? &&
      (forall k :: 0 <= k < |ds| ==> IsJsonColumn(df.columns, ds[k].0)) &&
      RowsConvert(JsonRows(Rows(df.records)), ds)
    ensures JsonTyped(df, ds).Success? ==>
      var typed := JsonTyped(df, ds).value;
      WellFormed(typed) && (forall c :: c in typed.columns <==> IsJsonColumn(df.columns, c)) &&
      Rows(typed.records) == JsonCleanRows(Rows(df.records), ds)
  {
    if JsonShaped(df).Success? {
      var shaped := JsonShaped(df).value;
      JsonShapedSpec(df);
      JsonShapedRows(df);
      ConvertAllSpec(shaped, ds);
      AllConvertRows(shaped, ds);
      if ConvertAll(shaped, ds).Success? {
        ConvertAllRows(shaped, ds);
      }
    }
  }

  /**
   * The JSON cleaning succeeds exactly when its typed stage does and, when a
   * country is given, there is a region column. Its result is well formed,
   * has no null and is numbered 0, 1, 2, ... Without a country its rows are
   * the null-free reshaped rows in order; with one, exactly those of them
   * whose region is the country's name.
   */
  lemma JsonCleanSpec(df: Frame, ds: Dtypes, country: Option<Region>)
    requires WellFormed(df) && DistinctKeys(ds)
    ensures JsonClean(df, ds, country).Success? <==>
      JsonTyped(df, ds).Success? && (country.Some? ==> CountryColumn in df.columns || RegionColumn in df.columns)
    ensures JsonClean(df, ds, None).Success? ==>
      Rows(JsonClean(df, ds, None).value.records) == Filter(JsonCleanRows(Rows(df.records), ds), NoNulls)
    ensures JsonClean(df, ds, country).Success? ==>
      var g := JsonClean(df, ds, country).value;
      WellFormed(g) &&
      (forall w :: w in Rows(g.records) ==> NoNulls(w)) &&
      (forall i :: 0 <= i < |g.records| ==> g.records[i].index == i)
    ensures JsonClean(df, ds, country).Success? && country.Some? ==>
      var g := JsonClean(df, ds, country).value;
      (forall w :: w in Rows(g.records) ==> CellAt(w, RegionColumn) == Text(Name(country.value))) &&
      Rows(g.records) == Filter(Rows(JsonClean(df, ds, None).value.records), RowMatches(RegionColumn, Name(country.value)))
  {
    JsonCleanSucceeds(df, ds, country);
    JsonTypedSpec(df, ds);
    if JsonTyped(df, ds).Success? {
      var typed := JsonTyped(df, ds).value;
      FinishSpec(typed, RegionName(country));
      FinishSpec(typed, None);
    }
  }

  /**
   * Past the typed stage only the region filter can fail, and only when
   * neither `country` nor `region` was a column to begin with.
   */
  lemma JsonCleanSucceeds(df: Frame, ds: Dtypes, country: Option<Region>)
    requires WellFormed(df) && DistinctKeys(ds)
    ensures JsonClean(df, ds, country).Success? <==>
      JsonTyped(df, ds).Success? && (country.Some? ==> CountryColumn in df.columns || RegionColumn in df.columns)
  {
    if JsonTyped(df, ds).Success? {
      JsonShapedColumns(df);
      var shaped := JsonShaped(df).value;
      var typed := JsonTyped(df, ds).value;
      assert typed.columns == shaped.columns;
      assert RegionColumn in shaped.columns <==> IsJsonColumn(df.columns, RegionColumn);
    }
  }

  /** The reshaped columns alone. */
  lemma JsonShapedColumns(df: Frame)
    requires WellFormed(df) && JsonShaped(df).Success?
    ensures forall c :: c in JsonShaped(df).value.columns <==> IsJsonColumn(df.columns, c)
  {
    JsonShapedSpec(df);
  }

  /**
   * The JSON output has `region` and `value` in place of `country` and
   * `life_expectancy` and no flag column; every other input column is kept.
   */
  lemma JsonCleanColumns(df: Frame, ds: Dtypes, country: Option<Region>)
    requires WellFormed(df) && DistinctKeys(ds) && JsonClean(df, ds, country).Success?
    ensures var g := JsonClean(df, ds, country).value;
      (forall c :: c in g.columns <==> IsJsonColumn(df.columns, c)) &&
      (CountryColumn in df.columns ==> RegionColumn in g.columns) &&
      (LifeExpectancyColumn in df.columns ==> ValueColumn in g.columns) &&
      CountryColumn !in g.columns && LifeExpectancyColumn !in g.columns &&
      FlagColumn !in g.columns && FlagDetailColumn !in g.columns
  {
    JsonShapedColumns(df);
    JsonColumnsFacts(df.columns, JsonClean(df, ds, country).value.columns);
  }

  /** What membership in the JSON output columns says about particular labels. */
  lemma JsonColumnsFacts(columns: seq<string>, out: seq<string>)
    requires forall c :: c in out <==> IsJsonColumn(columns, c)
    ensures CountryColumn in columns ==> RegionColumn in out
    ensures LifeExpectancyColumn in columns ==> ValueColumn in out
    ensures CountryColumn !in out && LifeExpectancyColumn !in out
    ensures FlagColumn !in out && FlagDetailColumn !in out
  {
    assert IsJsonColumn(columns, RegionColumn) <== CountryColumn in columns;
    assert IsJsonColumn(columns, ValueColumn) <== LifeExpectancyColumn in columns;
    assert !IsJsonColumn(columns, CountryColumn);
    assert !IsJsonColumn(columns, LifeExpectancyColumn);
    assert !IsJsonColumn(columns, FlagColumn);
    assert !IsJsonColumn(columns, FlagDetailColumn);
  }
}
