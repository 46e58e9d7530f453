/**
 * The strategy objects: a strategy remembers its `col_dtypes` map, applies
 * it column by column to a working frame, and runs the pipeline of its
 * format; the main block picks the strategy from the file extension.
 */
module Strategies {
  import opened Wrappers
  import opened Seqs
  import opened Frames
  import opened Reshape
  import opened Regions
  import opened CleaningStrategies

  /**
   * `CSVCleaningStrategy` or `JSONCleaningStrategy`: the abstract base
   * class's state (`col_dtypes`) together with which subclass it is.
   */
  class CleaningStrategy {
    const format: Format
    const colDtypes: DtypeMap

    /** `__init__(col_dtypes=None)`: no map means `{"year": np.int64, "value": float}`. */
    constructor(format: Format, colDtypes: Option<DtypeMap>)
      ensures this.format == format
      ensures colDtypes.None? ==> this.colDtypes == DefaultDtypes
      ensures colDtypes.Some? ==> this.colDtypes == colDtypes.value
    {
      this.format := format;
      DefaultDtypesSpec();
      this.colDtypes := if colDtypes.None? then DefaultDtypes else colDtypes.value;
    }

    /**
     * `_ensure_data_types`: for each (column, dtype) entry in order the
     * working frame's column is replaced by its converted copy; a missing
     * column or a cell that does not convert raises.
     */
    method EnsureDataTypes(df: Frame) returns (r: Result<Frame, Error>)
      ensures r == ConvertAll(df, colDtypes)
    {
      var frame := df;
      var k := 0;
      while k < |colDtypes|
        invariant 0 <= k <= |colDtypes|
        invariant ConvertAll(frame, colDtypes[k..]) == ConvertAll(df, colDtypes)
      {
        var (col, dtype) := colDtypes[k];
        assert colDtypes[k..][1..] == colDtypes[k + 1..];
        var converted := ConvertColumn(frame, col, dtype);
        if converted.Failure? {
          return Failure(converted.error);
        }
        frame := converted.value;
        k := k + 1;
      }
      return Success(frame);
    }

    /**
     * `clean_data(df, country)` of the concrete strategy. The caller's frame
     * is a value here, so the copy the source takes first is implicit.
     */
    method CleanData(df: Frame, country: Option<Region>) returns (r: Result<Frame, Error>)
      requires WellFormed(df)
      ensures format == Csv ==> r == CsvClean(df, colDtypes, country)
      ensures format == Json ==> r == JsonClean(df, colDtypes, country)
      ensures r.Success? ==>
        WellFormed(r.value) &&
        (forall w :: w in Rows(r.value.records) ==> NoNulls(w)) &&
        (forall i :: 0 <= i < |r.value.records| ==> r.value.records[i].index == i)
      ensures r.Success? && country.Some? ==>
        forall w :: w in Rows(r.value.records) ==> CellAt(w, RegionColumn) == Text(Name(country.value))
    {
      var typed: Frame;
      if format == Csv {
        var split :- SplitIdentifier(df);
        var long :- Melt(split);
        typed :- EnsureDataTypes(ExtractValues(long));
        CsvCleanSpec(df, colDtypes, country);
      } else {
        var shaped :- JsonShaped(df);
        typed :- EnsureDataTypes(shaped);
        JsonCleanSpec(df, colDtypes, country);
      }
      var dropped := DropNa(typed);
      var filtered :- FilterCol(dropped, Some(RegionColumn), RegionName(country));
      r := Success(ResetIndex(filtered));
    }
  }

  /** `strategies = {".csv": ..., ".tsv": ..., ".json": ...}`. */
  function StrategyFor(ext: string): (r: Option<Format>)
    ensures r == Some(Csv) <==> ext == ".csv" || ext == ".tsv"
    ensures r == Some(Json) <==> ext == ".json"
    ensures r.None? <==> ext != ".csv" && ext != ".tsv" && ext != ".json"
  {
    if ext == ".csv" || ext == ".tsv" then Some(Csv)
    else if ext == ".json" then Some(Json)
    else None
  }

  /**
   * `strategies[file_ext]()`: a fresh strategy with the default dtypes for a
   * known extension; any other extension raises a KeyError, None here.
   */
  method FromExtension(ext: string) returns (s: Option<CleaningStrategy>)
    ensures s.None? <==> StrategyFor(ext).None?
    ensures s.Some? ==>
      fresh(s.value) && s.value.format == StrategyFor(ext).value && s.value.colDtypes == DefaultDtypes
  {
    match StrategyFor(ext)
    case None =>
      s := None;
    case Some(format) =>
      var strategy := new CleaningStrategy(format, None);
      s := Some(strategy);
  }
}
