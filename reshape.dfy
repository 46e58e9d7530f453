/**
 * The reshaping both versions of the delimited-text cleaning share: the
 * combined identifier column split into four key columns, the year columns
 * unpivoted into (year, value) rows, and the number extracted from each value.
 */
module Reshape {
  import opened Wrappers
  import opened Seqs
  import opened Strings
  import opened ValueExtraction
  import opened Frames

  /** The combined identifier column of the raw table. */
  const IdColumn: string := "unit,sex,age,geo\\time"
  const Unit: string := "unit"
  const Sex: string := "sex"
  const Age: string := "age"
  const RegionColumn: string := "region"
  const YearColumn: string := "year"
  const ValueColumn: string := "value"

  /** The four key columns the identifier splits into, in order. */
  const KeyColumns: seq<string> := [Unit, Sex, Age, RegionColumn]

  predicate NotIdColumn(c: string) { c != IdColumn }

  predicate NotKeyColumn(c: string) { c !in KeyColumns }

  predicate IsYearColumn(c: string) { c != IdColumn && c !in KeyColumns }

  /** The columns of the unpivoted table. */
  const LongColumns: seq<string> := KeyColumns + [YearColumn, ValueColumn]

  lemma LongColumnsDistinct()
    ensures Distinct(LongColumns) && |LongColumns| == 6
    ensures IdColumn !in LongColumns
  {
  }

  // ---------------------------------------------------------------------
  // str.split(",", expand=True)
  // ---------------------------------------------------------------------

  /**
   * The four key cells of one identifier cell: its `,`-separated parts when
   * there are exactly four of them; four nulls for any other identifier,
   * whose row `dropna` then removes.
   */
  function IdentifierParts(c: Cell): (ks: seq<Cell>)
    ensures |ks| == 4
  {
    if c.Text? && |Split(c.s, ',')| == 4 then
      var parts := Split(c.s, ',');
      [Text(parts[0]), Text(parts[1]), Text(parts[2]), Text(parts[3])]
    else [Missing, Missing, Missing, Missing]
  }

  /**
   * An identifier `"unit,sex,age,region"` built from four comma-free parts
   * splits back into exactly those parts; and key cells that are text always
   * join back into the identifier they came from.
   */
  lemma IdentifierPartsRoundTrip(unit: string, sex: string, age: string, region: string)
    requires ',' !in unit && ',' !in sex && ',' !in age && ',' !in region
    ensures IdentifierParts(Text(unit + "," + sex + "," + age + "," + region)) ==
      [Text(unit), Text(sex), Text(age), Text(region)]
  {
    var parts := [unit, sex, age, region];
    SplitJoin(parts, ',');
    JoinFour(unit, sex, age, region);
  }

  lemma JoinFour(a: string, b: string, c: string, d: string)
    ensures Join([a, b, c, d], ',') == a + "," + b + "," + c + "," + d
  {
    var parts := [a, b, c, d];
    assert parts[1..] == [b, c, d] && parts[2..] == [c, d] && parts[3..] == [d];
    assert Join([c, d], ',') == c + [','] + d by {
      assert [c, d][1..] == [d];
    }
    assert Join([b, c, d], ',') == b + [','] + (c + [','] + d) by {
      assert [b, c, d][1..] == [c, d];
    }
    assert "," == [','];
  }

  lemma IdentifierPartsJoin(c: Cell)
    requires IdentifierParts(c)[0].Text?
    ensures c.Text?
    ensures var ks := IdentifierParts(c);
      forall k :: 0 <= k < 4 ==> ks[k].Text? && ',' !in ks[k].s
    ensures var ks := IdentifierParts(c);
      Join([ks[0].s, ks[1].s, ks[2].s, ks[3].s], ',') == c.s
  {
    var parts := Split(c.s, ',');
    assert [parts[0], parts[1], parts[2], parts[3]] == parts;
  }

  /** One row after the key columns are assigned and the identifier column is dropped. */
  function SplitRow(row: Row): (w: Row)
    ensures IdColumn !in w
    ensures forall k :: 0 <= k < 4 ==> KeyColumns[k] in w
  {
    var ks := IdentifierParts(CellAt(row, IdColumn));
    (row - {IdColumn})[Unit := ks[0]][Sex := ks[1]][Age := ks[2]][RegionColumn := ks[3]]
  }

  /** Every row split. */
  function SplitRows(rows: seq<Row>): (ws: seq<Row>)
    ensures |ws| == |rows|
    ensures forall i :: 0 <= i < |rows| ==> ws[i] == SplitRow(rows[i])
  {
    seq(|rows|, i requires 0 <= i < |rows| => SplitRow(rows[i]))
  }

  /**
   * Lines 98-101: `df[["unit", "sex", "age", "region"]] = df[id].str.split(",",
   * expand=True)` followed by `drop(id, axis=1)`. Key columns not yet present
   * are appended; the identifier column must exist.
   */
  function SplitIdentifier(f: Frame): (r: Result<Frame, Error>)
    ensures r.Failure? <==> IdColumn !in f.columns
  {
    if IdColumn !in f.columns then Failure(MissingColumn(IdColumn))
    else
      Success(Frame(Filter(f.columns + Filter(KeyColumns, k => k !in f.columns), NotIdColumn),
                    seq(|f.records|, i requires 0 <= i < |f.records| =>
                      f.records[i].(row := SplitRow(f.records[i].row)))))
  }

  /**
   * A split row holds the four key cells of its identifier and no
   * identifier; every other cell is unchanged.
   */
  lemma SplitRowSpec(row: Row)
    ensures var ks := IdentifierParts(CellAt(row, IdColumn));
      var w := SplitRow(row);
      IdColumn !in w &&
      (forall k :: 0 <= k < 4 ==> KeyColumns[k] in w && w[KeyColumns[k]] == ks[k]) &&
      forall c :: IsYearColumn(c) ==> CellAt(w, c) == CellAt(row, c)
  {
  }

  /**
   * After the split the identifier column is gone and the four key columns
   * are present; every record keeps its label and its position and holds the
   * split row.
   */
  lemma SplitIdentifierSpec(f: Frame)
    requires IdColumn in f.columns
    ensures var g := SplitIdentifier(f).value;
      |g.records| == |f.records| &&
      (forall c :: c in g.columns <==> c != IdColumn && (c in f.columns || c in KeyColumns)) &&
      forall i :: 0 <= i < |f.records| ==>
        g.records[i].index == f.records[i].index && g.records[i].row == SplitRow(f.records[i].row)
  {
    var added := Filter(KeyColumns, k => k !in f.columns);
    FilterContains(KeyColumns, k => k !in f.columns);
    FilterContains(f.columns + added, NotIdColumn);
  }

  // ---------------------------------------------------------------------
  // melt(id_vars=["unit", "sex", "age", "region"], var_name="year")
  // ---------------------------------------------------------------------

  /** The columns `melt` unpivots: every column that is not a key, in order. */
  function ValueVars(columns: seq<string>): seq<string>
  {
    Filter(columns, NotKeyColumn)
  }

  /** The year columns of the raw table: all but the identifier and the key labels. */
  function YearColumns(columns: seq<string>): seq<string>
  {
    Filter(columns, IsYearColumn)
  }

  /** After the split, `melt` unpivots exactly the year columns of the raw table, in their order. */
  lemma SplitYears(f: Frame)
    requires IdColumn in f.columns
    ensures ValueVars(SplitIdentifier(f).value.columns) == YearColumns(f.columns)
  {
    var added := Filter(KeyColumns, k => k !in f.columns);
    var all := f.columns + added;
    assert SplitIdentifier(f).value.columns == Filter(all, NotIdColumn);
    FilterContains(KeyColumns, k => k !in f.columns);
    FilterNone(added, IsYearColumn);
    var none := Filter(added, IsYearColumn);
    calc {
      ValueVars(Filter(all, NotIdColumn));
      Filter(Filter(all, NotIdColumn), NotKeyColumn);
      { FilterFilter(all, NotIdColumn, NotKeyColumn, IsYearColumn); }
      Filter(all, IsYearColumn);
      { FilterAppend(f.columns, added, IsYearColumn); }
      Filter(f.columns, IsYearColumn) + none;
    }
  }

  /** The long-format row for one wide row and one year column. */
  function MeltRow(row: Row, year: string): (w: Row)
    ensures HasColumns(w, LongColumns)
  {
    map[Unit := CellAt(row, Unit), Sex := CellAt(row, Sex), Age := CellAt(row, Age),
        RegionColumn := CellAt(row, RegionColumn), YearColumn := Text(year),
        ValueColumn := CellAt(row, year)]
  }

  /** The year columns stacked one after another, each over all wide rows in order. */
  function MeltRows(rows: seq<Row>, years: seq<string>): (ws: seq<Row>)
    decreases |years|
  {
    if years == [] then []
    else seq(|rows|, i requires 0 <= i < |rows| => MeltRow(rows[i], years[0])) + MeltRows(rows, years[1..])
  }

  /**
   * `melt`: one row per (year column, wide row) pair, all rows of the first
   * year column first, under a fresh index 0, 1, 2, ... A `value` column
   * already present clashes with the melted one and raises.
   */
  function Melt(f: Frame): (r: Result<Frame, Error>)
    ensures r.Failure? <==> ValueColumn in f.columns
    ensures r.Success? ==> r.value.columns == LongColumns
  {
    if ValueColumn in f.columns then Failure(ColumnClash(ValueColumn))
    else Success(Frame(LongColumns, Numbered(MeltRows(Rows(f.records), ValueVars(f.columns)))))
  }

  /** There is one melted row per wide row and year column. */
  lemma {:induction false} MeltRowsLength(rows: seq<Row>, years: seq<string>)
    ensures |MeltRows(rows, years)| == |years| * |rows|
    decreases |years|
  {
    if years != [] {
      MeltRowsLength(rows, years[1..]);
      assert |years| * |rows| == |rows| + |years[1..]| * |rows| by {
        assert |years| == 1 + |years[1..]|;
      }
    }
  }

  /**
   * The stacking is year-column-major: position `j * n + i` holds wide row
   * `i` under year column `j`.
   */
  lemma {:induction false} MeltRowsAt(rows: seq<Row>, years: seq<string>, j: nat, i: nat)
    requires j < |years| && i < |rows|
    ensures j * |rows| + i < |MeltRows(rows, years)|
    ensures MeltRows(rows, years)[j * |rows| + i] == MeltRow(rows[i], years[j])
    decreases j
  {
    var n := |rows|;
    var ws := MeltRows(rows, years);
    var tail := MeltRows(rows, years[1..]);
    assert |ws| == n + |tail|;
    if j == 0 {
      assert j * n + i == i;
      assert ws[i] == MeltRow(rows[i], years[0]);
    } else {
      MeltRowsAt(rows, years[1..], j - 1, i);
      var q := (j - 1) * n + i;
      assert j * n + i == n + q by {
        MulStep(j, n);
      }
      assert ws[n + q] == tail[q];
      assert years[1..][j - 1] == years[j];
    }
  }

  lemma MulStep(j: int, n: int)
    ensures j * n == n + (j - 1) * n
  {
  }

  /** Every melted row comes from one wide row and one year column. */
  lemma {:induction false} MeltRowsFrom(rows: seq<Row>, years: seq<string>, p: nat)
    requires p < |MeltRows(rows, years)|
    ensures exists i, j :: 0 <= i < |rows| && 0 <= j < |years| && MeltRows(rows, years)[p] == MeltRow(rows[i], years[j])
    decreases |years|
  {
    if p >= |rows| {
      MeltRowsFrom(rows, years[1..], p - |rows|);
      var i, j :| 0 <= i < |rows| && 0 <= j < |years[1..]| &&
        MeltRows(rows, years[1..])[p - |rows|] == MeltRow(rows[i], years[1..][j]);
      assert MeltRows(rows, years)[p] == MeltRow(rows[i], years[j + 1]);
    } else {
      assert MeltRows(rows, years)[p] == MeltRow(rows[p], years[0]);
    }
  }

  /** The melted frame is well formed, numbered densely, and as long as rows times year columns. */
  lemma MeltSpec(f: Frame)
    requires ValueColumn !in f.columns
    ensures var g := Melt(f).value;
      WellFormed(g) &&
      |g.records| == |ValueVars(f.columns)| * |f.records| &&
      forall p :: 0 <= p < |g.records| ==> g.records[p].index == p
  {
    var g := Melt(f).value;
    MeltRowsLength(Rows(f.records), ValueVars(f.columns));
    LongColumnsDistinct();
    forall r | r in g.records ensures HasColumns(r.row, g.columns) {
      var p :| 0 <= p < |g.records| && g.records[p] == r;
      MeltRowsFrom(Rows(f.records), ValueVars(f.columns), p);
    }
  }

  // ---------------------------------------------------------------------
  // df["value"].str.extract(r"(\d+\.\d)")
  // ---------------------------------------------------------------------

  /**
   * The extraction applied to one value cell: the leftmost `\d+\.\d` of a
   * string, null when the string has none; a cell that is not a string
   * yields null.
   */
  function ExtractCell(c: Cell): (r: Cell)
    ensures r == Missing || (r.Text? && IsTenthsLiteral(r.s))
    ensures r.Text? ==> c.Text? && Extract(c.s) == Some(r.s)
    ensures r == Missing ==> !c.Text? || Extract(c.s).None?
  {
    if c.Text? then
      match Extract(c.s)
      case Some(t) => Text(t)
      case None => Missing
    else Missing
  }

  /** One long row before dtypes: wide row `row` under year column `year`, split, unpivoted and with its value extracted. */
  function LongRow(row: Row, year: string): (w: Row)
    ensures HasColumns(w, LongColumns)
  {
    ExtractRow(MeltRow(SplitRow(row), year))
  }

  /** One row with its value cell replaced by the extraction. */
  function ExtractRow(row: Row): (w: Row)
    ensures ValueColumn in w
    ensures w[ValueColumn] == Missing || (w[ValueColumn].Text? && IsTenthsLiteral(w[ValueColumn].s))
    ensures w.Keys == row.Keys + {ValueColumn}
  {
    row[ValueColumn := ExtractCell(CellAt(row, ValueColumn))]
  }

  /** `df["value"] = df["value"].str.extract(r"(\d+\.\d)")`. */
  function ExtractValues(f: Frame): (r: Frame)
    ensures r.columns == f.columns && |r.records| == |f.records|
  {
    Frame(f.columns, seq(|f.records|, i requires 0 <= i < |f.records| =>
                       f.records[i].(row := ExtractRow(f.records[i].row))))
  }

  /**
   * Extraction keeps a well-formed frame with a value column well formed,
   * keeps labels, and rewrites only the value cell of each row.
   */
  lemma ExtractValuesSpec(f: Frame)
    requires WellFormed(f) && ValueColumn in f.columns
    ensures var g := ExtractValues(f);
      WellFormed(g) &&
      forall i :: 0 <= i < |f.records| ==>
        g.records[i].index == f.records[i].index && g.records[i].row == ExtractRow(f.records[i].row)
  {
    var g := ExtractValues(f);
    forall r | r in g.records ensures HasColumns(r.row, g.columns) {
      var i :| 0 <= i < |g.records| && g.records[i] == r;
      assert f.records[i] in f.records;
    }
  }
}
