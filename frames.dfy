/**
 * Tables as the cleaning code handles them: records of named cells carrying
 * an index label, and the whole-table pandas operations the cleaning applies
 * (`astype` on one column, `dropna`, `reset_index(drop=True)`, `rename` and
 * `drop` of columns).
 */
module Frames {
  import opened Wrappers
  import opened Seqs
  import opened Strings
  import opened ValueExtraction

  /**
   * One cell. `Missing` is NaN or None; `Text` a Python string in an object
   * column; `Int` an int64; `Tenths(t)` the float `t / 10` (every float the
   * cleaning produces carries one decimal digit).
   */
  datatype Cell = Missing | Text(s: string) | Int(n: int) | Tenths(t: int)

  type Row = map<string, Cell>

  /** A row together with its index label. */
  datatype Record = Record(index: int, row: Row)

  /** A DataFrame: the column labels in order and the records in order. */
  datatype Frame = Frame(columns: seq<string>, records: seq<Record>)

  /** The exceptions the cleaning can raise. */
  datatype Error =
    | MissingColumn(name: string)            // KeyError on a column label
    | CannotConvert(column: string, index: int) // astype failing on the row with this label
    | ColumnClash(name: string)              // a column label that would occur twice

  /** The dtypes a `col_dtypes` map can name: `np.int64` and `float`. */
  datatype DType = Int64 | Float

  /** `row` holds a cell for exactly the labels in `columns`. */
  predicate HasColumns(row: Row, columns: seq<string>)
  {
    (forall c :: c in row ==> c in columns) && (forall c :: c in columns ==> c in row)
  }

  /** Column labels are distinct and every record fills every column. */
  predicate WellFormed(f: Frame)
  {
    Distinct(f.columns) && forall r :: r in f.records ==> HasColumns(r.row, f.columns)
  }

  /** The cell of `row` in column `c`; a row without that column reads as null. */
  function CellAt(row: Row, c: string): Cell
  {
    if c in row then row[c] else Missing
  }

  /** The rows of `rs` without their labels. */
  function Rows(rs: seq<Record>): (ws: seq<Row>)
    ensures |ws| == |rs|
    ensures forall i :: 0 <= i < |rs| ==> ws[i] == rs[i].row
  {
    seq(|rs|, i requires 0 <= i < |rs| => rs[i].row)
  }

  /** Rows labelled 0, 1, 2, ... in order: a fresh RangeIndex. */
  function Numbered(ws: seq<Row>): (rs: seq<Record>)
    ensures Rows(rs) == ws
    ensures forall i :: 0 <= i < |ws| ==> rs[i].index == i
  {
    seq(|ws|, i requires 0 <= i < |ws| => Record(i, ws[i]))
  }

  /** Well-formedness is a property of the column labels and of the rows alone. */
  lemma WellFormedByRows(f: Frame)
    ensures WellFormed(f) <==>
      Distinct(f.columns) && forall w :: w in Rows(f.records) ==> HasColumns(w, f.columns)
  {
    var ws := Rows(f.records);
    if WellFormed(f) {
      forall w | w in ws ensures HasColumns(w, f.columns) {
        var i :| 0 <= i < |ws| && ws[i] == w;
        assert f.records[i] in f.records;
      }
    }
    if forall w :: w in ws ==> HasColumns(w, f.columns) {
      forall r | r in f.records ensures HasColumns(r.row, f.columns) {
        var i :| 0 <= i < |f.records| && f.records[i] == r;
        assert ws[i] in ws;
      }
    }
  }

  /**
   * Selecting records by a test that reads only their row selects the same
   * rows as applying that test to the rows.
   */
  lemma {:induction false} RowsFilter(rs: seq<Record>, q: Record -> bool, p: Row -> bool)
    requires forall r :: q(r) == p(r.row)
    ensures Rows(Filter(rs, q)) == Filter(Rows(rs), p)
    decreases |rs|
  {
    if rs != [] {
      RowsFilter(rs[1..], q, p);
      assert Rows(rs)[1..] == Rows(rs[1..]);
    }
  }

  // ---------------------------------------------------------------------
  // astype
  // ---------------------------------------------------------------------

  const Int64Min: int := -0x8000_0000_0000_0000
  const Int64Max: int := 0x7FFF_FFFF_FFFF_FFFF

  predicate InInt64(n: int) { Int64Min <= n <= Int64Max }

  /** The float `t / 10` cast to an integer: truncation toward zero. */
  function TruncateTenths(t: int): (n: int)
    ensures t >= 0 ==> 0 <= t - 10 * n < 10
    ensures t < 0 ==> 0 <= 10 * n - t < 10
  {
    if t >= 0 then t / 10 else -((-t) / 10)
  }

  /**
   * `astype(dtype)` on one cell: None when pandas raises. A null cannot
   * become an int64, stays null as a float; text is read as `int()` or
   * `float()` reads it.
   */
  function ConvertCell(c: Cell, dt: DType): (r: Option<Cell>)
    ensures r.Some? && dt == Int64 ==> r.value.Int? && InInt64(r.value.n)
    ensures r.Some? && dt == Float ==> r.value.Missing? || r.value.Tenths?
    ensures r == Some(Missing) <==> c == Missing && dt == Float
    ensures c == Missing && dt == Int64 ==> r.None?
  {
    match dt
    case Int64 =>
      (match c
       case Missing => None
       case Int(n) => if InInt64(n) then Some(Int(n)) else None
       case Tenths(t) => if InInt64(TruncateTenths(t)) then Some(Int(TruncateTenths(t))) else None
       case Text(s) =>
         (match ParseInt(s)
          case Some(n) => if InInt64(n) then Some(Int(n)) else None
          case None => None))
    case Float =>
      (match c
       case Missing => Some(Missing)
       case Int(n) => Some(Tenths(10 * n))
       case Tenths(_) => Some(c)
       case Text(s) =>
         (match ParseFloatTenths(s)
          case Some(t) => Some(Tenths(t))
          case None => None))
  }

  /** Converting a converted cell again changes nothing. */
  lemma ConvertCellIdempotent(c: Cell, dt: DType)
    requires ConvertCell(c, dt).Some?
    ensures ConvertCell(ConvertCell(c, dt).value, dt) == ConvertCell(c, dt)
  {
  }

  /** A year header spelled as `str(n)` becomes the int64 `n`. */
  lemma ConvertYearHeader(n: int)
    requires InInt64(n)
    ensures ConvertCell(Text(IntToDecimal(n)), Int64) == Some(Int(n))
  {
    ParseIntRoundTrip(n);
  }

  /** An extracted value `d+.d` becomes the float it spells. */
  lemma ConvertExtractedValue(t: string)
    requires IsTenthsLiteral(t)
    ensures ConvertCell(Text(t), Float) == Some(Tenths(TenthsValue(t)))
  {
  }

  /** `df[col].astype(dtype)` over the records; the first failing row raises. */
  function ConvertRecords(rs: seq<Record>, col: string, dt: DType): (r: Result<seq<Record>, Error>)
    ensures r.Success? ==> |r.value| == |rs|
    decreases |rs|
  {
    if rs == [] then Success([])
    else
      match ConvertCell(CellAt(rs[0].row, col), dt)
      case None => Failure(CannotConvert(col, rs[0].index))
      case Some(v) =>
        (match ConvertRecords(rs[1..], col, dt)
         case Failure(e) => Failure(e)
         case Success(tail) => Success([rs[0].(row := rs[0].row[col := v])] + tail))
  }

  /** Every record's cell in `col` converts. */
  predicate RecordsConvert(rs: seq<Record>, col: string, dt: DType)
  {
    forall r :: r in rs ==> ConvertCell(CellAt(r.row, col), dt).Some?
  }

  /**
   * Converting a column succeeds exactly when every cell converts; then each
   * record keeps its label and every other cell, and its cell in `col` is the
   * converted one.
   */
  lemma ConvertRecordsSpec(rs: seq<Record>, col: string, dt: DType)
    ensures ConvertRecords(rs, col, dt).Success? <==> RecordsConvert(rs, col, dt)
    ensures ConvertRecords(rs, col, dt).Success? ==>
      forall i :: 0 <= i < |rs| ==>
        ConvertRecords(rs, col, dt).value[i] ==
        rs[i].(row := rs[i].row[col := ConvertCell(CellAt(rs[i].row, col), dt).value])
  {
    ConvertRecordsSucceeds(rs, col, dt);
    if ConvertRecords(rs, col, dt).Success? {
      ConvertRecordsValues(rs, col, dt);
    }
  }

  /** The success half, by induction on the records. */
  lemma {:induction false} ConvertRecordsSucceeds(rs: seq<Record>, col: string, dt: DType)
    ensures ConvertRecords(rs, col, dt).Success? <==> RecordsConvert(rs, col, dt)
    decreases |rs|
  {
    if rs != [] {
      ConvertRecordsSucceeds(rs[1..], col, dt);
      RecordsConvertCons(rs, col, dt);
    }
  }

  /** The values half, by induction on the records. */
  lemma {:induction false} ConvertRecordsValues(rs: seq<Record>, col: string, dt: DType)
    requires ConvertRecords(rs, col, dt).Success?
    ensures forall i :: 0 <= i < |rs| ==>
      ConvertCell(CellAt(rs[i].row, col), dt).Some? &&
      ConvertRecords(rs, col, dt).value[i] == ConvertedRecord(rs[i], col, dt)
    decreases |rs|
  {
    if rs != [] {
      var head := ConvertCell(CellAt(rs[0].row, col), dt);
      var tail := ConvertRecords(rs[1..], col, dt);
      assert head.Some? && tail.Success?;
      ConvertRecordsValues(rs[1..], col, dt);
      var out := ConvertRecords(rs, col, dt).value;
      assert out == [ConvertedRecord(rs[0], col, dt)] + tail.value;
      forall i | 1 <= i < |rs|
        ensures ConvertCell(CellAt(rs[i].row, col), dt).Some? && out[i] == ConvertedRecord(rs[i], col, dt)
      {
        assert out[i] == tail.value[i - 1] && rs[i] == rs[1..][i - 1];
      }
    }
  }

  /** A record with its cell in `col` converted. */
  function ConvertedRecord(r: Record, col: string, dt: DType): Record
    requires ConvertCell(CellAt(r.row, col), dt).Some?
  {
    r.(row := r.row[col := ConvertCell(CellAt(r.row, col), dt).value])
  }

  /** Whether a column converts is a property of the rows alone. */
  lemma RecordsConvertRows(rs: seq<Record>, col: string, dt: DType)
    ensures RecordsConvert(rs, col, dt) <==>
      forall w :: w in Rows(rs) ==> ConvertCell(CellAt(w, col), dt).Some?
  {
    var ws := Rows(rs);
    if RecordsConvert(rs, col, dt) {
      forall w | w in ws ensures ConvertCell(CellAt(w, col), dt).Some? {
        var i :| 0 <= i < |ws| && ws[i] == w;
        assert rs[i] in rs;
      }
    }
    if forall w :: w in ws ==> ConvertCell(CellAt(w, col), dt).Some? {
      forall r | r in rs ensures ConvertCell(CellAt(r.row, col), dt).Some? {
        var i :| 0 <= i < |rs| && rs[i] == r;
        assert ws[i] in ws;
      }
    }
  }

  lemma RecordsConvertCons(rs: seq<Record>, col: string, dt: DType)
    requires rs != []
    ensures RecordsConvert(rs, col, dt) <==>
      ConvertCell(CellAt(rs[0].row, col), dt).Some? && RecordsConvert(rs[1..], col, dt)
  {
    assert forall r :: r in rs[1..] ==> r in rs;
    assert forall r :: r in rs ==> r == rs[0] || r in rs[1..] by {
      assert rs == [rs[0]] + rs[1..];
    }
  }

  /** `df[col] = df[col].astype(dtype)`: a missing column raises a KeyError. */
  function ConvertColumn(f: Frame, col: string, dt: DType): (r: Result<Frame, Error>)
    ensures r.Success? ==> r.value.columns == f.columns && |r.value.records| == |f.records|
  {
    if col !in f.columns then Failure(MissingColumn(col))
    else
      match ConvertRecords(f.records, col, dt)
      case Failure(e) => Failure(e)
      case Success(rs) => Success(Frame(f.columns, rs))
  }

  /**
   * On a well-formed frame, converting a column succeeds exactly when the
   * column exists and each of its cells converts; then the frame stays well
   * formed, labels are kept, the column holds the converted cells and every
   * other cell is unchanged.
   */
  lemma ConvertColumnSpec(f: Frame, col: string, dt: DType)
    requires WellFormed(f)
    ensures ConvertColumn(f, col, dt).Success? <==> col in f.columns && RecordsConvert(f.records, col, dt)
    ensures ConvertColumn(f, col, dt).Success? ==>
      var g := ConvertColumn(f, col, dt).value;
      WellFormed(g) && g.columns == f.columns && |g.records| == |f.records| &&
      forall i :: 0 <= i < |f.records| ==>
        g.records[i].index == f.records[i].index &&
        (forall c :: c in g.records[i].row <==> c in f.records[i].row) &&
        (forall c :: CellAt(g.records[i].row, c) ==
           if c == col then ConvertCell(CellAt(f.records[i].row, col), dt).value
           else CellAt(f.records[i].row, c))
  {
    ConvertRecordsSpec(f.records, col, dt);
    if ConvertColumn(f, col, dt).Success? {
      var g := ConvertColumn(f, col, dt).value;
      forall r | r in g.records ensures HasColumns(r.row, g.columns) {
        var i :| 0 <= i < |g.records| && g.records[i] == r;
        assert f.records[i] in f.records;
      }
    }
  }

  // ---------------------------------------------------------------------
  // dropna, reset_index
  // ---------------------------------------------------------------------

  /** The row has no null cell. */
  predicate NoNulls(row: Row)
  {
    forall c :: c in row ==> row[c] != Missing
  }

  /** The record has no null cell. */
  predicate Complete(r: Record)
  {
    NoNulls(r.row)
  }

  /** `dropna()`: the records without a null cell, in their order, labels kept. */
  function DropNa(f: Frame): (r: Frame)
    ensures r.columns == f.columns
  {
    Frame(f.columns, Filter(f.records, Complete))
  }

  /**
   * After `dropna` no record has a null; the survivors are the complete
   * records, in their original order.
   */
  lemma DropNaSpec(f: Frame)
    ensures forall r :: r in DropNa(f).records ==> Complete(r) && r in f.records
    ensures forall r :: r in f.records && Complete(r) ==> r in DropNa(f).records
    ensures IsSubsequence(DropNa(f).records, f.records)
    ensures |DropNa(f).records| == Count(f.records, Complete)
  {
    FilterContains(f.records, Complete);
    FilterIsSubsequence(f.records, Complete);
    FilterCount(f.records, Complete);
  }

  /** The records of `rs` relabelled `from`, `from + 1`, ... */
  function Relabel(rs: seq<Record>, from: int): (r: seq<Record>)
    ensures |r| == |rs|
    ensures forall i :: 0 <= i < |rs| ==> r[i].row == rs[i].row && r[i].index == from + i
    decreases |rs|
  {
    if rs == [] then [] else [rs[0].(index := from)] + Relabel(rs[1..], from + 1)
  }

  /** `reset_index(drop=True)`: the same rows, labelled 0, 1, 2, ... */
  function ResetIndex(f: Frame): (r: Frame)
    ensures r.columns == f.columns && |r.records| == |f.records|
  {
    Frame(f.columns, Relabel(f.records, 0))
  }

  /** Relabelling keeps every row and numbers the records densely. */
  lemma {:induction false} RelabelSpec(rs: seq<Record>, from: int)
    ensures Rows(Relabel(rs, from)) == Rows(rs)
    ensures forall i :: 0 <= i < |rs| ==> Relabel(rs, from)[i].index == from + i
    decreases |rs|
  {
    if rs != [] {
      RelabelSpec(rs[1..], from + 1);
    }
  }

  /** After `reset_index` the rows are unchanged and the labels are 0..n-1. */
  lemma ResetIndexSpec(f: Frame)
    ensures Rows(ResetIndex(f).records) == Rows(f.records)
    ensures forall i :: 0 <= i < |f.records| ==> ResetIndex(f).records[i].index == i
  {
    RelabelSpec(f.records, 0);
  }

  // ---------------------------------------------------------------------
  // rename, drop
  // ---------------------------------------------------------------------

  function RenameLabel(c: string, from: string, to: string): string
  {
    if c == from then to else c
  }

  function RenameLabels(cs: seq<string>, from: string, to: string): (r: seq<string>)
    ensures |r| == |cs|
    ensures forall i :: 0 <= i < |cs| ==> r[i] == RenameLabel(cs[i], from, to)
    decreases |cs|
  {
    if cs == [] then [] else [RenameLabel(cs[0], from, to)] + RenameLabels(cs[1..], from, to)
  }

  function RenameRow(row: Row, from: string, to: string): Row
  {
    if from in row then (row - {from})[to := row[from]] else row
  }

  /**
   * `rename({from: to}, axis=1)`: the column `from`, when there is one, is
   * relabelled `to`; a label absent from the frame is ignored.
   */
  function RenameColumn(f: Frame, from: string, to: string): (r: Frame)
    ensures |r.columns| == |f.columns| && |r.records| == |f.records|
    ensures from in f.columns ==> to in r.columns
    ensures from != to ==> from !in r.columns
    ensures forall i :: 0 <= i < |f.records| ==> r.records[i].index == f.records[i].index
  {
    Frame(RenameLabels(f.columns, from, to),
          seq(|f.records|, i requires 0 <= i < |f.records| =>
            f.records[i].(row := RenameRow(f.records[i].row, from, to))))
  }

  /**
   * Renaming onto a fresh label keeps the frame well formed: `to` holds what
   * `from` held, `from` is gone, every other column is untouched, and labels
   * and order of the records are kept.
   */
  lemma RenameColumnSpec(f: Frame, from: string, to: string)
    requires WellFormed(f) && from in f.columns && to !in f.columns
    ensures var g := RenameColumn(f, from, to);
      WellFormed(g) && to in g.columns && from !in g.columns &&
      (forall c :: c in f.columns && c != from ==> c in g.columns) &&
      (forall c :: c in g.columns && c != to ==> c in f.columns) &&
      forall i :: 0 <= i < |f.records| ==>
        g.records[i].index == f.records[i].index &&
        g.records[i].row[to] == f.records[i].row[from] &&
        forall c :: c in f.records[i].row && c != from ==> g.records[i].row[c] == f.records[i].row[c]
  {
    var g := RenameColumn(f, from, to);
    forall c ensures c in g.columns <==> c == to || (c in f.columns && c != from) {
      if c in g.columns {
        var k :| 0 <= k < |g.columns| && g.columns[k] == c;
        assert RenameLabel(f.columns[k], from, to) == c;
      }
      if c == to {
        var k :| 0 <= k < |f.columns| && f.columns[k] == from;
        assert g.columns[k] == to;
      } else if c in f.columns && c != from {
        var k :| 0 <= k < |f.columns| && f.columns[k] == c;
        assert g.columns[k] == c;
      }
    }
    forall i, j | 0 <= i < j < |g.columns| ensures g.columns[i] != g.columns[j] {
      assert f.columns[i] != f.columns[j];
    }
    forall r | r in g.records ensures HasColumns(r.row, g.columns) {
      var k :| 0 <= k < |g.records| && g.records[k] == r;
      assert f.records[k] in f.records;
    }
  }

  /**
   * `rename({from: to}, axis=1)` as the cleaning uses it. Renaming a present
   * column onto a label that is also present would give two columns of one
   * name; the model reports that as a clash instead.
   */
  function RenameFresh(f: Frame, from: string, to: string): (r: Result<Frame, Error>)
    ensures r.Failure? <==> from in f.columns && to in f.columns
  {
    if from in f.columns && to in f.columns then Failure(ColumnClash(to))
    else Success(RenameColumn(f, from, to))
  }

  /**
   * A rename without clash keeps the frame well formed and the records in
   * their order with their labels; `to` becomes a column when `from` was
   * one, `from` is gone, and each row is renamed the same way.
   */
  lemma RenameFreshSpec(f: Frame, from: string, to: string)
    requires WellFormed(f) && from != to && RenameFresh(f, from, to).Success?
    ensures var g := RenameFresh(f, from, to).value;
      WellFormed(g) && |g.records| == |f.records| &&
      (forall c :: c in g.columns <==> (c != from && c in f.columns) || (c == to && from in f.columns)) &&
      forall i :: 0 <= i < |f.records| ==>
        g.records[i].index == f.records[i].index &&
        g.records[i].row == RenameRow(f.records[i].row, from, to)
  {
    var g := RenameColumn(f, from, to);
    if from in f.columns {
      RenameColumnSpec(f, from, to);
    } else {
      forall k | 0 <= k < |f.columns| ensures g.columns[k] == f.columns[k] {
        assert f.columns[k] in f.columns;
      }
      assert g.columns == f.columns;
      forall r | r in g.records ensures HasColumns(r.row, g.columns) {
        var k :| 0 <= k < |g.records| && g.records[k] == r;
        assert f.records[k] in f.records;
      }
    }
  }

  /** The first of `names` that is not among `columns`. */
  function FirstAbsent(names: seq<string>, columns: seq<string>): (r: Option<string>)
    ensures r.None? <==> forall k :: 0 <= k < |names| ==> names[k] in columns
    ensures r.Some? ==> r.value in names && r.value !in columns
    decreases |names|
  {
    if names == [] then None
    else if names[0] !in columns then Some(names[0])
    else FirstAbsent(names[1..], columns)
  }

  /**
   * `drop(names, axis=1)`: the columns in `names` are removed; a label that
   * is not a column raises a KeyError.
   */
  function DropColumns(f: Frame, names: seq<string>): (r: Result<Frame, Error>)
    ensures r.Failure? <==> exists k :: 0 <= k < |names| && names[k] !in f.columns
    ensures r.Success? ==> |r.value.records| == |f.records|
  {
    match FirstAbsent(names, f.columns)
    case Some(n) => Failure(MissingColumn(n))
    case None =>
      Success(Frame(Filter(f.columns, c => c !in names),
                    seq(|f.records|, i requires 0 <= i < |f.records| =>
                      f.records[i].(row := f.records[i].row - set n | n in names))))
  }

  /**
   * Dropping present columns keeps the frame well formed: exactly the other
   * columns remain, in their order, with their cells, and every record keeps
   * its label and position.
   */
  lemma DropColumnsSpec(f: Frame, names: seq<string>)
    requires WellFormed(f) && forall k :: 0 <= k < |names| ==> names[k] in f.columns
    ensures DropColumns(f, names).Success?
    ensures var g := DropColumns(f, names).value;
      WellFormed(g) && IsSubsequence(g.columns, f.columns) &&
      (forall c :: c in g.columns <==> c in f.columns && c !in names) &&
      |g.records| == |f.records| &&
      forall i :: 0 <= i < |f.records| ==>
        g.records[i].index == f.records[i].index &&
        forall c :: c in g.records[i].row ==> g.records[i].row[c] == f.records[i].row[c]
  {
    var g := DropColumns(f, names).value;
    FilterContains(f.columns, c => c !in names);
    FilterIsSubsequence(f.columns, c => c !in names);
    FilterDistinct(f.columns, c => c !in names);
    forall r | r in g.records ensures HasColumns(r.row, g.columns) {
      var k :| 0 <= k < |g.records| && g.records[k] == r;
      assert f.records[k] in f.records;
    }
  }
}
