/**
 * The earlier single-function cleaning: the same reshaping as the
 * delimited-text strategy, with the year converted before the value is
 * extracted, the region filter always applied, and no renumbering.
 */
module Cleaning {
  import opened Wrappers
  import opened Seqs
  import opened Frames
  import opened Reshape
  import opened Regions
  import opened CleaningStrategies

  /** Value extraction over a sequence of records. */
  function ExtractRecords(rs: seq<Record>): (es: seq<Record>)
    ensures |es| == |rs|
    ensures forall i :: 0 <= i < |rs| ==> es[i] == rs[i].(row := ExtractRow(rs[i].row))
  {
    seq(|rs|, i requires 0 <= i < |rs| => rs[i].(row := ExtractRow(rs[i].row)))
  }

  /** Extraction rewrites only the value cell, so it commutes with writing another cell. */
  lemma ExtractRowUpdate(row: Row, col: string, v: Cell)
    requires col != ValueColumn
    ensures ExtractRow(row[col := v]) == ExtractRow(row)[col := v]
    ensures CellAt(ExtractRow(row), col) == CellAt(row, col)
  {
  }

  /** Extraction distributes over a leading record. */
  lemma ExtractRecordsCons(head: Record, tail: seq<Record>)
    ensures ExtractRecords([head] + tail) == [head.(row := ExtractRow(head.row))] + ExtractRecords(tail)
  {
  }

  /**
   * Converting a column other than `value` gives the same outcome before or
   * after the values are extracted: the same error, or the same records.
   */
  lemma {:induction false} ConvertRecordsExtract(rs: seq<Record>, col: string, dt: DType)
    requires col != ValueColumn
    ensures ConvertRecords(ExtractRecords(rs), col, dt) ==
      match ConvertRecords(rs, col, dt)
      case Failure(e) => Failure(e)
      case Success(ts) => Success(ExtractRecords(ts))
    decreases |rs|
  {
    if rs != [] {
      var es := ExtractRecords(rs);
      assert es == [es[0]] + ExtractRecords(rs[1..]);
      ExtractRowUpdate(rs[0].row, col, Missing);
      ConvertRecordsExtract(rs[1..], col, dt);
      var c := ConvertCell(CellAt(rs[0].row, col), dt);
      if c.Some? {
        var v := c.value;
        ExtractRowUpdate(rs[0].row, col, v);
        var rest := ConvertRecords(rs[1..], col, dt);
        if rest.Success? {
          var head := rs[0].(row := rs[0].row[col := v]);
          ExtractRecordsCons(head, rest.value);
          assert es[0].(row := es[0].row[col := v]) == head.(row := ExtractRow(head.row));
        }
      }
    }
  }

  /**
   * Lines 21-23 against the strategy's order: converting the year first
   * and then extracting and converting the value is the same as extracting
   * first and applying the default dtypes, errors included.
   */
  lemma YearBeforeExtract(long: Frame)
    ensures ConvertAll(ExtractValues(long), DefaultDtypes) ==
      match ConvertColumn(long, YearColumn, Int64)
      case Failure(e) => Failure(e)
      case Success(g) => ConvertColumn(ExtractValues(g), ValueColumn, Float)
  {
    assert ExtractValues(long).records == ExtractRecords(long.records);
    ConvertRecordsExtract(long.records, YearColumn, Int64);
    assert DefaultDtypes[1..] == [(ValueColumn, Float)];
    assert DefaultDtypes[1..][1..] == [];
    match ConvertColumn(long, YearColumn, Int64)
    case Failure(e) =>
    case Success(g) =>
      assert ExtractValues(g) == Frame(long.columns, ExtractRecords(g.records));
      match ConvertColumn(ExtractValues(g), ValueColumn, Float)
      case Failure(e) =>
      case Success(h) =>
        assert ConvertAll(h, []) == Success(h);
  }

  /**
   * `clean_data(country)` without its file read and write: a working copy
   * split, unpivoted, typed, stripped of nulls and filtered on its region.
   * It fails exactly when the strategy's typed stage with the default dtypes
   * does, with the same error. Otherwise its rows are those of the
   * null-free clean rows whose region is `country`, in order; they keep the
   * labels the unpivot gave them, and once renumbered they are the
   * strategy's result for the region named `country`.
   */
  method CleanData(df: Frame, country: string) returns (r: Result<Frame, Error>)
    ensures r.Failure? <==> CsvTyped(df, DefaultDtypes).Failure?
    ensures r.Failure? ==> r.error == CsvTyped(df, DefaultDtypes).error
    ensures r.Success? ==>
      r.value == Frame(LongColumns, Filter(DropNa(CsvTyped(df, DefaultDtypes).value).records,
                                           Matches(RegionColumn, country)))
    ensures r.Success? ==>
      Rows(r.value.records) ==
      Filter(Filter(CleanRows(Rows(df.records), YearColumns(df.columns), DefaultDtypes), NoNulls),
             RowMatches(RegionColumn, country))
    ensures r.Success? ==>
      forall w :: w in Rows(r.value.records) ==> NoNulls(w) && CellAt(w, RegionColumn) == Text(country)
    ensures r.Success? && FromName(country).Some? ==>
      CsvClean(df, DefaultDtypes, FromName(country)).Success? &&
      ResetIndex(r.value) == CsvClean(df, DefaultDtypes, FromName(country)).value
  {
    DefaultDtypesSpec();
    CsvTypedSpec(df, DefaultDtypes);
    var frame :- SplitIdentifier(df);
    frame :- Melt(frame);
    YearBeforeExtract(frame);
    frame :- ConvertColumn(frame, YearColumn, Int64);
    frame := ExtractValues(frame);
    frame :- ConvertColumn(frame, ValueColumn, Float);
    frame := DropNa(frame);
    r := FilterCol(frame, Some(RegionColumn), Some(country));
    LegacyRows(df, country);
    if FromName(country).Some? {
      FromNameIsInverse(country, FromName(country).value);
    }
  }

  /**
   * The rows the legacy filter keeps: the null-free clean rows under the
   * default dtypes whose region is `country`, in order, each without null
   * and with that region.
   */
  lemma LegacyRows(df: Frame, country: string)
    requires CsvTyped(df, DefaultDtypes).Success?
    ensures var typed := CsvTyped(df, DefaultDtypes).value;
      var ws := Rows(Filter(DropNa(typed).records, Matches(RegionColumn, country)));
      ws == Filter(Filter(CleanRows(Rows(df.records), YearColumns(df.columns), DefaultDtypes), NoNulls),
                   RowMatches(RegionColumn, country)) &&
      forall w :: w in ws ==> NoNulls(w) && CellAt(w, RegionColumn) == Text(country)
  {
    DefaultDtypesSpec();
    CsvTypedSpec(df, DefaultDtypes);
    var typed := CsvTyped(df, DefaultDtypes).value;
    var dropped := DropNa(typed);
    RowsFilter(typed.records, Complete, NoNulls);
    RowsFilter(dropped.records, Matches(RegionColumn, country), RowMatches(RegionColumn, country));
    var clean := Filter(Rows(typed.records), NoNulls);
    FilterContains(Rows(typed.records), NoNulls);
    FilterContains(clean, RowMatches(RegionColumn, country));
  }
}
