# life_expectancy cleaning, modelled in Dafny

This project models the data-cleaning core of the `life_expectancy` package.
That core covers:

- the cleaning strategies of `life_expectancy/cleaning_strategies.py`:
  - the shared `_ensure_data_types` and `_filter_col` steps and the strategy constructor;
  - the delimited-text pipeline of `CSVCleaningStrategy.clean_data`;
  - the JSON pipeline of `JSONCleaningStrategy.clean_data`;
  - the table that maps a file extension to a strategy;
- the `Region` enumeration of `life_expectancy/region.py`, with `_generate_next_value_` and `get_country_list`;
- the earlier single-function cleaning in `life_expectancy/cleaning.py`.

A pandas DataFrame is a value `Frame`:

- `columns` holds the column labels, in order.
- `records` holds the rows, each a `Record` carrying its index label and a map from column label to `Cell`.
- A cell is `Missing` (NaN/None), `Text`, an int64 `Int` or a float `Tenths(t)`. The float `Tenths(t)` is t/10; every float the cleaning produces has one decimal digit.
- A raised exception is the `Failure` side of `Result`, carrying an `Error`.

How the files map to the source:

| file | models |
|---|---|
| `frames.dfy` | the pandas operations the cleaning uses: `astype`, `dropna`, `reset_index`, `rename`, `drop` |
| `reshape.dfy` | identifier split, `melt` and `str.extract` |
| `cleaning_strategies.dfy` | both pipelines as functions, with their specifications |
| `strategies.dfy` | the strategy class: `_ensure_data_types` as a loop, `clean_data`, the extension dispatch |
| `cleaning.dfy` | the legacy `clean_data` |
| `region.dfy` | the enumeration |
| `value_extraction.dfy` | the `\d+\.\d` scanner and float parsing |
| `seqs.dfy`, `strings.dfy`, `wrappers.dfy` | generic helpers |

Each pipeline is specified twice:

- As a frame-level function: `CsvClean`, `JsonClean`.
- As a row-level reference:
  - CSV: `CleanRows` gives, for every wide row and year column, the long row, column-major as `melt` stacks them.
  - JSON: `JsonCleanRows` gives the renamed, flag-free row.
  - The lemmas connect the two: the output rows are exactly the null-free reference rows, in order. With a country, they are further filtered on `region`.

The legacy function is proved to agree with the strategy. Converting `year` before extracting `value` gives the same outcome, errors included. Its rows equal the strategy's rows once renumbered.

## Model

| member | source | states |
|---|---|---|
| CleaningStrategies.DefaultDtypesSpec | life_expectancy/cleaning_strategies.py:15-17 | the default map has distinct keys and maps exactly `year` to int64 and `value` to float, nothing else |
| Strategies.CleaningStrategy.constructor | life_expectancy/cleaning_strategies.py:15-17 | without a map the strategy holds the default map; with one it holds that map unchanged |
| Strategies.CleaningStrategy.EnsureDataTypes | life_expectancy/cleaning_strategies.py:31-43 | the loop over the map's entries returns exactly `ConvertAll` of the frame: each listed column converted in order, the first failure raised |
| CleaningStrategies.ConvertAll | life_expectancy/cleaning_strategies.py:41-42 | on success the column labels and the number of records are unchanged |
| CleaningStrategies.ConvertAllSpec | life_expectancy/cleaning_strategies.py:41-43 | success iff every listed column exists and all its cells convert; on success the frame stays well formed, each record keeps its label and column set, listed columns hold converted cells, every other cell is unchanged |
| CleaningStrategies.ConvertAllRows | life_expectancy/cleaning_strategies.py:41-43 | on success each output row is the input row with the map applied cell by cell |
| CleaningStrategies.AllConvertRows | life_expectancy/cleaning_strategies.py:41-42 | the success condition restated over rows: all listed columns present and each listed cell of each row converts |
| CleaningStrategies.ConvertRow | life_expectancy/cleaning_strategies.py:41-42 | applying the map to a row keeps its set of column labels |
| CleaningStrategies.Lookup | life_expectancy/cleaning_strategies.py:41 | a key has no entry exactly when no entry of the map carries it; otherwise the result is the dtype of the first entry for that key |
| Frames.ConvertCell | life_expectancy/cleaning_strategies.py:42 | an int64 conversion yields an in-range integer and never accepts a null; a float conversion yields a null or a float, and a null exactly for a null |
| Frames.TruncateTenths | life_expectancy/cleaning_strategies.py:42 | a float cast to int64 truncates toward zero |
| Frames.ConvertCellIdempotent | life_expectancy/cleaning_strategies.py:42 | converting an already converted cell changes nothing |
| Frames.ConvertYearHeader | life_expectancy/cleaning_strategies.py:42 | a header spelled as the decimal of an in-range n converts to int64 n |
| Frames.ConvertExtractedValue | life_expectancy/cleaning_strategies.py:105-106 | an extracted `\d+\.\d` literal converts to the float it spells |
| Frames.ConvertRecords | life_expectancy/cleaning_strategies.py:42 | on success one output record per input record |
| Frames.ConvertRecordsSpec | life_expectancy/cleaning_strategies.py:42 | `df[col].astype(dt)` succeeds iff every cell of the column converts; then each record keeps its label and other cells and holds the converted cell |
| Frames.ConvertColumn | life_expectancy/cleaning_strategies.py:42 | on success the columns and number of records are unchanged |
| Frames.ConvertColumnSpec | life_expectancy/cleaning_strategies.py:42 | a missing column raises; otherwise success iff every cell converts, and the result keeps labels, well-formedness and every other cell |
| CleaningStrategies.FilterCol | life_expectancy/cleaning_strategies.py:45-58 | fails iff a column and a value are given and the column does not exist; the columns are kept |
| CleaningStrategies.FilterColSpec | life_expectancy/cleaning_strategies.py:56-58 | with no column or no value the frame is returned unchanged; otherwise exactly the records whose cell equals the value remain, in their order, as many as there are such records |
| Frames.DropNa | life_expectancy/cleaning_strategies.py:109 | the columns are kept |
| Frames.DropNaSpec | life_expectancy/cleaning_strategies.py:109 | survivors are exactly the null-free records, in their order, as many as there are |
| Frames.Relabel | life_expectancy/cleaning_strategies.py:115 | one record per record, each keeping its row and labelled `from + i` at position i |
| Frames.RelabelSpec | life_expectancy/cleaning_strategies.py:115 | relabelling keeps the rows and numbers the labels from the start value on |
| Frames.ResetIndex | life_expectancy/cleaning_strategies.py:115 | the columns and number of records are kept |
| Frames.ResetIndexSpec | life_expectancy/cleaning_strategies.py:115 | rows are unchanged and labelled 0, 1, 2, ... |
| CleaningStrategies.RegionName | life_expectancy/cleaning_strategies.py:112 | a name is given exactly when a country is, and it looks up to that country |
| CleaningStrategies.Finish | life_expectancy/cleaning_strategies.py:109-115 | the shared tail raises exactly when a region is asked for and there is no region column; it keeps the columns and never adds records |
| CleaningStrategies.FinishSpec | life_expectancy/cleaning_strategies.py:109-115 | the shared tail fails only for a region filter without a region column; its result is well formed with the same columns, null-free and densely numbered; without a region its rows are the input's null-free rows in order, with one they are exactly those whose region matches |
| Reshape.LongColumnsDistinct | life_expectancy/cleaning_strategies.py:102 | the six long columns are distinct and do not include the identifier column |
| Reshape.IdentifierParts | life_expectancy/cleaning_strategies.py:98-100 | every identifier yields four key cells |
| Reshape.IdentifierPartsRoundTrip | life_expectancy/cleaning_strategies.py:98-100 | `unit,sex,age,region` built from four comma-free parts splits back into those parts |
| Reshape.IdentifierPartsJoin | life_expectancy/cleaning_strategies.py:98-100 | when the first key cell is text, the identifier was text, all four key cells are comma-free text, and they join back with `,` into the identifier |
| Reshape.SplitIdentifier | life_expectancy/cleaning_strategies.py:98-101 | fails exactly when the identifier column is missing |
| Reshape.SplitRow | life_expectancy/cleaning_strategies.py:98-101 | a split row has no identifier cell and has all four key columns |
| Reshape.SplitRowSpec | life_expectancy/cleaning_strategies.py:98-101 | a split row has no identifier cell, holds the four key cells, and keeps every year cell |
| Reshape.SplitIdentifierSpec | life_expectancy/cleaning_strategies.py:98-101 | the identifier column is replaced by the four key columns; every record keeps its label and position and holds its split row |
| Reshape.SplitYears | life_expectancy/cleaning_strategies.py:101-102 | the columns `melt` unpivots after the split are exactly the year columns of the input, in order |
| Reshape.MeltRow | life_expectancy/cleaning_strategies.py:102 | an unpivoted row has exactly the six long columns |
| Reshape.Melt | life_expectancy/cleaning_strategies.py:102 | fails iff a `value` column already exists; otherwise the columns are the long columns |
| Reshape.MeltRowsLength | life_expectancy/cleaning_strategies.py:102 | one long row per (year column, row) pair |
| Reshape.MeltRowsAt | life_expectancy/cleaning_strategies.py:102 | position j*n+i holds row i under year column j: column-major stacking |
| Reshape.MeltRowsFrom | life_expectancy/cleaning_strategies.py:102 | every long row comes from some row and some year column |
| Reshape.MeltSpec | life_expectancy/cleaning_strategies.py:102 | the melted frame is well formed with length (year columns) × (rows) and labels 0, 1, 2, ... |
| Reshape.ExtractCell | life_expectancy/cleaning_strategies.py:105 | the result is null or a `\d+\.\d` literal; text is the leftmost match of the cell; null means no match or no text |
| Reshape.LongRow | life_expectancy/cleaning_strategies.py:98-105 | the long row of one wide row under one year column has exactly the six long columns |
| Reshape.ExtractRow | life_expectancy/cleaning_strategies.py:105 | the row gains or keeps a `value` cell that is null or a `\d+\.\d` literal, and no other label is added or removed |
| Reshape.ExtractValues | life_expectancy/cleaning_strategies.py:105 | columns and number of records are kept |
| Reshape.ExtractValuesSpec | life_expectancy/cleaning_strategies.py:105 | the frame stays well formed; each record keeps its label and only its value cell is rewritten |
| ValueExtraction.Extract | life_expectancy/cleaning_strategies.py:105 | no result iff the pattern occurs nowhere; otherwise the result is a `\d+\.\d` literal occurring in the text with no occurrence starting further left |
| ValueExtraction.MatchEndIsDetermined | life_expectancy/cleaning_strategies.py:105 | at a given start at most one occurrence exists, so greedy matching cannot change the result |
| ValueExtraction.FindMatch | life_expectancy/cleaning_strategies.py:105 | the scan from a position finds the leftmost occurrence at or after it, or reports that there is none |
| ValueExtraction.ExtractDiscardsSuffix | life_expectancy/cleaning_strategies.py:105 | a value literal followed by any text extracts to that literal |
| ValueExtraction.NoPointNoValue | life_expectancy/cleaning_strategies.py:105 | text without a decimal point extracts to null |
| ValueExtraction.ExtractAnnotatedExample | life_expectancy/cleaning_strategies.py:105 | `82.4 e` extracts to `82.4` |
| ValueExtraction.ExtractLeadingTextExample | life_expectancy/cleaning_strategies.py:105 | `b 82.45` extracts to `82.4`: leading text is skipped and one decimal digit kept |
| ValueExtraction.ExtractNullExamples | life_expectancy/cleaning_strategies.py:105 | `82` and `:` extract to null |
| ValueExtraction.TenthsLiteralRoundTrip | life_expectancy/cleaning_strategies.py:105-106 | printing a count of tenths gives a value literal that reads back to the same count |
| ValueExtraction.TenthsLiteralExample | life_expectancy/cleaning_strategies.py:105-106 | 824 tenths print as `82.4` |
| ValueExtraction.ParseFloatTenths | life_expectancy/cleaning_strategies.py:42 | `float` of a `\d+\.\d` literal is the value it spells |
| ValueExtraction.ParseFloatExample | life_expectancy/cleaning_strategies.py:42 | `float("82.4")` is 824 tenths |
| CleaningStrategies.CsvTyped | life_expectancy/cleaning_strategies.py:97-106 | KeyError without the identifier column; on success the columns are the six long columns |
| CleaningStrategies.CsvClean | life_expectancy/cleaning_strategies.py:86-115 | the cleaning fails exactly when its typed stage does, with the same error; on success the columns are the six long columns |
| CleaningStrategies.CsvTypedSpec | life_expectancy/cleaning_strategies.py:97-106 | KeyError without the identifier column; clash with an existing `value` column; otherwise success iff every listed column is a long column and all its cells convert; the result is well formed with the long columns and its rows are the reference rows in order |
| CleaningStrategies.CsvCleanSpec | life_expectancy/cleaning_strategies.py:86-115 | success iff the typed stage succeeds; result well formed, long columns, null-free, numbered 0..n-1; without a country its rows are the null-free reference rows in order, with one exactly those whose region is the country's name |
| CleaningStrategies.CsvCleanRows | life_expectancy/cleaning_strategies.py:109-113 | the output rows are the null-free reference rows, filtered on the country's name when one is given |
| CleaningStrategies.CleanRowsAt | life_expectancy/cleaning_strategies.py:98-102 | the reference has (year columns) × (rows) entries and position j*n+i is wide row i under year column j |
| CleaningStrategies.CleanRowIn | life_expectancy/cleaning_strategies.py:98-102 | every (wide row, year column) pair contributes its row to the reference |
| CleaningStrategies.CleanRowsFrom | life_expectancy/cleaning_strategies.py:98-102 | every reference row comes from one wide row and one year column |
| CleaningStrategies.CleanRowsLength | life_expectancy/cleaning_strategies.py:98-102 | the reference has (year columns) × (rows) entries |
| CleaningStrategies.CsvCleanLength | life_expectancy/cleaning_strategies.py:98-102 | the output has at most (input rows) × (year columns) rows |
| CleaningStrategies.CsvOutputFrom | life_expectancy/cleaning_strategies.py:86-115 | every output row is null-free, carries the country's region when one is given, and is the clean row of some wide row under some year column |
| CleaningStrategies.CsvOutputHas | life_expectancy/cleaning_strategies.py:86-115 | conversely every null-free clean row of a wide row under a year column, matching the country when one is given, is in the output |
| CleaningStrategies.LongRowFields | life_expectancy/cleaning_strategies.py:98-105 | a long row holds the four identifier parts, the year header as text and the extracted value |
| CleaningStrategies.ConvertRowDefault | life_expectancy/cleaning_strategies.py:15-17 | the default map converts exactly the year and value cells of a long row |
| CleaningStrategies.CleanRowDefault | life_expectancy/cleaning_strategies.py:98-106 | with the default map a clean row holds the identifier parts, the header as int64 (null if it does not convert) and the extracted value in tenths (null if none) |
| CleaningStrategies.CleanRowDefaultComplete | life_expectancy/cleaning_strategies.py:109 | when the header converts, a clean row is null-free iff its identifier had four parts and a value was extracted |
| CleaningStrategies.CleanRowNoNulls | life_expectancy/cleaning_strategies.py:109 | a long row has no null iff none of its six cells is null |
| Frames.RenameColumn | life_expectancy/cleaning_strategies.py:154 | `rename` keeps the number of columns and of records and every record's label; `to` becomes a column when `from` was one, and `from` is gone unless it is renamed onto itself |
| Frames.RenameColumnSpec | life_expectancy/cleaning_strategies.py:154 | renaming onto a fresh label keeps the frame well formed, moves the cells and keeps everything else |
| Frames.RenameFresh | life_expectancy/cleaning_strategies.py:154 | a rename fails exactly when both the old and the new label are columns |
| Frames.RenameFreshSpec | life_expectancy/cleaning_strategies.py:154 | a rename keeps the frame well formed and the records in order; the new label is a column iff the old one was, and each row is renamed |
| Frames.FirstAbsent | life_expectancy/cleaning_strategies.py:155 | the first name not among the columns, if any |
| Frames.DropColumns | life_expectancy/cleaning_strategies.py:155 | `drop` raises iff some name is not a column |
| Frames.DropColumnsSpec | life_expectancy/cleaning_strategies.py:155 | dropping present columns keeps the frame well formed; exactly the other columns remain, in order, with their cells and labels |
| CleaningStrategies.JsonRow | life_expectancy/cleaning_strategies.py:153-155 | a reshaped row has no `country`, `life_expectancy`, `flag` or `flag_detail` cell |
| CleaningStrategies.JsonShaped | life_expectancy/cleaning_strategies.py:153-155 | renaming `country` onto an existing `region` column raises first; on success the number of records is kept |
| CleaningStrategies.JsonTyped | life_expectancy/cleaning_strategies.py:153-158 | a reshaping error is raised unchanged; on success the columns are the reshaped ones |
| CleaningStrategies.JsonClean | life_expectancy/cleaning_strategies.py:142-167 | success needs the typed stage to succeed, and without a country that is enough; the columns are those of the typed stage |
| CleaningStrategies.JsonCleanSucceeds | life_expectancy/cleaning_strategies.py:158-165 | the JSON cleaning succeeds iff its typed stage does and, when a country is given, `country` or `region` was an input column |
| CleaningStrategies.JsonRowSpec | life_expectancy/cleaning_strategies.py:153-155 | a reshaped row has `region` holding the country and `value` holding the life expectancy; flags and old labels are gone; other cells are kept |
| CleaningStrategies.JsonRenamed | life_expectancy/cleaning_strategies.py:154 | after both renames the frame is well formed with the renamed columns and rows |
| CleaningStrategies.JsonShapedErrors | life_expectancy/cleaning_strategies.py:153-155 | the errors in order: a clash on `region`, a clash on `value`, a KeyError for `flag`, then for `flag_detail`; success otherwise |
| CleaningStrategies.JsonShapedSpec | life_expectancy/cleaning_strategies.py:153-155 | the reshaped frame is well formed with the JSON columns; each record keeps its label and holds the reshaped input row |
| CleaningStrategies.JsonShapedRows | life_expectancy/cleaning_strategies.py:153-155 | the reshaped rows are the input rows reshaped one by one |
| CleaningStrategies.JsonTypedSpec | life_expectancy/cleaning_strategies.py:153-158 | errors are those of reshaping; then success iff every listed column is a JSON column and all its cells convert; result well formed, JSON columns, rows the reference rows in order |
| CleaningStrategies.JsonCleanSpec | life_expectancy/cleaning_strategies.py:142-167 | success iff the typed stage succeeds and, with a country, a region column exists; result well formed, null-free, numbered 0..n-1; rows the null-free reference rows in order, filtered on the country's name when given |
| CleaningStrategies.JsonCleanColumns | life_expectancy/cleaning_strategies.py:153-155 | the output has `region` and `value` in place of `country` and `life_expectancy`, no `flag`/`flag_detail`, and every other input column |
| Strategies.CleaningStrategy.CleanData | life_expectancy/cleaning_strategies.py:86-115 | the method equals the pipeline of its format; its result is well formed, null-free, numbered 0..n-1, and carries the country's region when given |
| Strategies.StrategyFor | life_expectancy/cleaning_strategies.py:186 | `.csv` and `.tsv` select the delimited-text strategy, `.json` the JSON one, and nothing else selects either |
| Strategies.FromExtension | life_expectancy/cleaning_strategies.py:186-187 | a known extension gives a fresh strategy of its format with the default map; any other extension fails |
| Cleaning.CleanData | life_expectancy/cleaning.py:13-29 | fails exactly when the strategy's typed stage does, with the same error; otherwise: the null-free records of region `country`, in order, with their melt labels; its rows are the null-free reference rows filtered on `country`; once renumbered it equals the strategy's output for that region |
| Cleaning.YearBeforeExtract | life_expectancy/cleaning.py:21-23 | converting `year` before extracting `value` gives the same result, errors included, as extracting first and applying the default map |
| Cleaning.ConvertRecordsExtract | life_expectancy/cleaning.py:21-22 | extracting values commutes with converting any other column |
| Cleaning.LegacyRows | life_expectancy/cleaning.py:26-29 | the rows the query keeps are the null-free reference rows whose region is `country`, each null-free with that region |
| Regions.Name | life_expectancy/region.py:35-90 | every member name has at least two characters |
| Regions.FromName | life_expectancy/cleaning_strategies.py:178 | a lookup succeeds with a declared member of that name or fails when no member has it |
| Regions.FromNameIsInverse | life_expectancy/region.py:35-90 | looking up text gives a member exactly when the text is that member's name |
| Regions.FromNameFails | life_expectancy/cleaning_strategies.py:178 | text that names no member fails to look up |
| Regions.NamesUnique | life_expectancy/region.py:4 | two members with the same name are the same member |
| Regions.AllDeclared | life_expectancy/region.py:35-90 | every member is declared and there are 56 |
| Regions.GenerateNextValue | life_expectancy/region.py:9-24 | the hook returns the member name it is given, whatever the start, count and earlier values |
| Regions.Value | life_expectancy/region.py:35-90 | a member's value is one of the declared names |
| Regions.AutoValues | life_expectancy/region.py:9-24 | `auto()` assigns one value per declared member |
| Regions.AutoValuesAreNames | life_expectancy/region.py:9-24 | the values `auto()` assigns are the member names |
| Regions.ValueIsName | life_expectancy/region.py:9-24 | each member's value is its name, so no two members share a value |
| Regions.DeclaredNamesMembership | life_expectancy/region.py:35-90 | a text is a declared name iff looking it up succeeds |
| Regions.CountryList | life_expectancy/region.py:33 | the country list is no longer than the list of declared names |
| Regions.CountryListMembership | life_expectancy/region.py:33 | a text is in the country list iff it has length 2 and names a member |
| Regions.CountryListOrder | life_expectancy/region.py:33 | the country list is a subsequence of the names in declaration order |
| Regions.CountryListExcludesAggregates | life_expectancy/tests/test_region.py:13-18 | no entry is longer than two characters; `DE_TOT`, `EEA30_2007` and `EU27_2007` are absent |
| Regions.MembersCount | life_expectancy/region.py:35-90 | 56 members, 9 of them aggregates |
| Regions.CountryListCount | life_expectancy/region.py:33 | the list has 47 names: exactly the non-aggregate members |
| Strings.Strip | life_expectancy/cleaning_strategies.py:42 | the white space `int()` and `float()` ignore is removed: the result is no longer than the input and neither starts nor ends with white space |
| Strings.ParseInt | life_expectancy/cleaning_strategies.py:42 | a text reads as an integer only if it contains a digit |
| Strings.ParseIntRoundTrip | life_expectancy/cleaning_strategies.py:42 | the decimal spelling of any integer reads back as that integer, so every year header written as a number converts |
| Strings.Split | life_expectancy/cleaning_strategies.py:98-100 | `str.split(",")` gives at least one part, no part contains the separator, and joining the parts with it gives back the text |
| Strings.SplitJoin | life_expectancy/cleaning_strategies.py:98-100 | splitting the join of separator-free parts gives back the parts |

## Left out

- File I/O: `load_data`, `save_data`, the read and export lines of `cleaning.py`, and `data_io.py`. Frames are given as values. Because they are values, the input the caller passed is never modified; the `df.copy()` the source takes first is implicit.
- The `__main__` blocks: argument parsing (including upper-casing the country), output paths, and the call with `arg_country.PT` whatever the argument. Only the extension table and the `Region[...]` lookup are modelled.
- Floating point:
  - Floats are integer tenths.
  - `float()` is modelled only for optionally signed integers and `\d+\.\d` literals, with surrounding white space.
  - Other spellings (exponents, several decimals, `nan`, `inf`) are not modelled and read as "does not convert".
- Unicode digits and other `str.isdigit` subtleties are not modelled. Digits are ASCII.
- Strings.Strip: only ASCII white space and the characters 28-31 are stripped. Python's `int()` and `float()` also strip other Unicode white space, such as U+00A0 and U+2003; those are not modelled.
- Strings.ParseInt: digit groups separated by `_` (`2_020`) are rejected, although Python's `int()` accepts them. The same holds for `float()` in ValueExtraction.ParseFloatTenths.
- Reshape.ExtractValues: when no `value` cell after `melt` is a string, pandas stores the column as float64 and `.str.extract` raises AttributeError. This happens when every year cell is empty. The model instead extracts nulls, and the pipeline returns an empty frame.
- Reshape.SplitIdentifier: when the identifier column holds no string at all, `.str.split` raises AttributeError. The model instead gives every row four null key cells.
- Dtypes: a `col_dtypes` map can name only `np.int64` and `float`. The legacy `astype(int)` is taken as int64, the width of a Python `int` dtype on 64-bit Linux.
- Reshape.IdentifierParts: an identifier that does not split into exactly four parts gives four nulls, and `dropna` then removes its row. pandas pads a short row with nulls only when the widest row has four parts; when the widest row has any other number of parts, the column assignment raises. That error is not modelled.
- Reshape.Melt: an existing `value` column is reported as a clash. This matches pandas 2, which raises on it; older pandas versions only warn, and that is not modelled.
- Frames.RenameFresh: a rename onto a label that is already a column would give two columns of one name. The model reports a clash instead; duplicate column labels are not modelled.
- Index labels are integers: every index in the pipelines is a RangeIndex or a subset of one.
- CleaningStrategies.FilterCol: the filter value is a string; `_filter_col` accepts any value, but both pipelines pass a region name.
- Frames.ConvertCell: converting an int64 column holding a float truncates toward zero, as numpy does. The error numpy raises for NaN is modelled as a failure, but numpy's other casting rules are not.
- Strategies.CleaningStrategy: the abstract base class and its two subclasses are one class with a `format` field. `clean_data` dispatches on that field.
