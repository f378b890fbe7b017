# CSV Converter Tool — a verified model of its core

The CSV Converter Tool is a WPF desktop program. It loads a delimited text file into a
`DataTable`, lets the user pick and order a subset of its columns, and saves the
result as CSV, TSV or JSON. This project models in Dafny the logic behind those
steps and proves what that logic guarantees.

- **Delimiter detection** (`CsvParsing`, `csv_parser.dfy`).
  - The sample is the first non-blank line.
  - The chosen candidate is the earliest one with the greatest positive count; if no
    candidate occurs, there is no delimiter.
  - The imperative loop is proved equal to a fold. Lemmas prove what the fold
    computes.
- **Building the table** (`csv_parser.dfy`).
  - The header gives the column names. A blank header becomes `Column<n>`. A name
    already taken gets the first free `_1`, `_2`, … suffix.
  - Every later non-null record becomes a row, padded with `""` or truncated to the
    header width.
  - The de-duplication loop is proved to terminate: a suffix with more digits than
    any used name is always free. It is also proved to pick the smallest free suffix.
- **Projection** (`TableUtils`, `table_utils.dfy`). This is the filtered table:
  - The known selected names, in selection order.
  - Each row's cells under those names.
  - The source object itself when the selection is empty.
- **Writers** (`DelimitedWriter`, `JsonWriter`).
  - Minimal quoting of fields, proved lossless against a decoder.
  - One line per header and per row. `Join` is proved undone by `Split` for fields
    that do not contain the separator, so a line whose fields need no quoting splits
    back into its fields.
  - JSON: one name-to-value dictionary per row.
- **Column dialog** (`ColumnSelection`).
  - A class with its select-all, deselect-all and OK handlers.
  - A value-level state machine (`Step`, `RunDialog`) that the class is proved
    against.
  - Lemmas about typical click sequences. One is the round trip: reopening the dialog
    on a confirmed selection and pressing OK gives that selection back.
- **Main window** (`MainWindowState`).
  - The combo-box mappings.
  - The state kept between events: the current table and the selected columns.
  - Loading, choosing columns and saving, with every early return and exception
    handler.

Tokenising by `TextFieldParser`, file reading, dialogs and user clicks are inputs of
the model:
- A file is given as its lines, as `File.ReadLines` sees them, and as the records
  `TextFieldParser` reads from it. `None` stands for a read that throws.
- The column dialog is driven by a script of `DialogAction`s.
- The save dialog's answer is an optional path.

Clicking a check box flips it (`ToggleBox`). That is WPF behaviour rather than code
of the repository.

Two consequences of the code that the lemmas make visible:
- After a confirmed empty selection, the previous selection is empty. The dialog then
  reopens with every box ticked (`ColumnSelection.ReopenThenOk`).
- A save with an empty selection is refused (`MainWindowState.MainWindow.SaveAs`).

## Model

| member | source | states |
|---|---|---|
| Strings.Count | CsvConverterTool/Converters/CsvParser.cs:30 | the number of occurrences is at most the length, and is zero exactly when the character is absent |
| Strings.CountIsMultiplicity | CsvConverterTool/Converters/CsvParser.cs:30 | the count equals the character's multiplicity in the line |
| Strings.NatToStringRoundTrip | CsvConverterTool/Converters/CsvParser.cs:74 | the decimal text of a suffix reads back as the same number |
| Strings.NatToStringInjective | CsvConverterTool/Converters/CsvParser.cs:74 | different suffix numbers give different texts |
| Tables.DataTable.constructor | CsvConverterTool/Converters/CsvParser.cs:48 | a new table has no columns and no rows |
| Tables.DataTable.AddColumn | CsvConverterTool/Converters/CsvParser.cs:78 | a new, non-empty, unused name is appended; existing rows get an empty cell for it; the table stays well formed |
| Tables.DataTable.AddRow | CsvConverterTool/Converters/CsvParser.cs:95 | a row of one cell per column is appended; nothing else changes |
| Tables.IndexOf | CsvConverterTool/Utilities/DataTableUtils.cs:41 | the lookup by column name finds the first column with that name |
| Tables.IndexOfDistinct | CsvConverterTool/Utilities/DataTableUtils.cs:41 | among unique names, looking up the name at position k finds position k |
| CsvParsing.FirstNonBlank | CsvConverterTool/Converters/CsvParser.cs:19-23 | no sample exactly when every line is blank; otherwise the sample is non-blank and is the first non-blank line |
| CsvParsing.BestIsMaximal | CsvConverterTool/Converters/CsvParser.cs:28-36 | no candidate's count exceeds the count of the one the scan settles on |
| CsvParsing.BestIsEarliest | CsvConverterTool/Converters/CsvParser.cs:28-36 | the candidate the scan settles on is the earliest of maximal positive count |
| CsvParsing.BestIsEarliestMaximum | CsvConverterTool/Converters/CsvParser.cs:25-36 | the strict `>` scan picks nothing exactly when every count is zero; otherwise it picks the earliest candidate with the greatest count, and no count exceeds the best one |
| CsvParsing.DetectSpec | CsvConverterTool/Converters/CsvParser.cs:15-39 | detection fails without a non-blank line or when no candidate occurs in it; otherwise it returns the earliest candidate of maximal count |
| CsvParsing.EarliestMaximumUnique | CsvConverterTool/Converters/CsvParser.cs:28-36 | the earliest maximum is unique, so detection is deterministic |
| CsvParsing.DetectDelimiter | CsvConverterTool/Converters/CsvParser.cs:15-39 | the loop returns the specified detection result, for the default candidates (comma, semicolon, tab, vertical bar) or a given list |
| CsvParsing.Proposed | CsvConverterTool/Converters/CsvParser.cs:63-65 | a proposed name is never empty (blank headers become `Column<n>`) |
| CsvParsing.FreshNameIsNew | CsvConverterTool/Converters/CsvParser.cs:67-76 | the de-duplicated name is non-empty and not among the names already used |
| CsvParsing.LongSuffixUnused | CsvConverterTool/Converters/CsvParser.cs:72-75 | a suffix longer than every used name is free, which bounds the loop |
| CsvParsing.FirstFreeSuffix | CsvConverterTool/Converters/CsvParser.cs:72-75 | a loop exit at the first unused `base_k` yields the name the de-duplication rule specifies |
| CsvParsing.MakeUnique | CsvConverterTool/Converters/CsvParser.cs:67-76 | the loop keeps an unused name and otherwise returns `base_k` for the smallest free k >= 1 |
| CsvParsing.NamedColumnsDistinct | CsvConverterTool/Converters/CsvParser.cs:61-79 | the column names built from any header are pairwise distinct and non-empty |
| CsvParsing.NamedColumnsKeepHeaders | CsvConverterTool/Converters/CsvParser.cs:61-79 | a non-blank header that collides with nothing earlier is kept verbatim; a blank one becomes `Column<i+1>` when that is free |
| CsvParsing.RepeatedHeaderExample | CsvConverterTool/Converters/CsvParser.cs:67-76 | the header `a, a, a` gives the columns `a, a_1, a_2` |
| CsvParsing.DataRecords | CsvConverterTool/Converters/CsvParser.cs:84-88 | there are never more rows than data records |
| CsvParsing.DataRecordsSpec | CsvConverterTool/Converters/CsvParser.cs:84-88 | a field list becomes a row exactly when it is a non-null record; without null records every record becomes a row, in order |
| CsvParsing.DataRecordsAppend | CsvConverterTool/Converters/CsvParser.cs:84-88 | skipping null records distributes over concatenation of the input |
| CsvParsing.RaggedRowsExample | CsvConverterTool/Converters/CsvParser.cs:90-95 | under the header `a,b,c` the record `1,2` is padded to `1,2,""` and `1,2,3,4` is truncated to `1,2,3` |
| CsvParsing.AddHeaderColumns | CsvConverterTool/Converters/CsvParser.cs:56-81 | the header loop adds one de-duplicated column per header field and keeps the table well formed |
| CsvParsing.AlignFields | CsvConverterTool/Converters/CsvParser.cs:91-94 | the cell loop fits a record to the column count: field i where it exists, "" past the record's end, extra fields dropped |
| CsvParsing.AddDataRows | CsvConverterTool/Converters/CsvParser.cs:83-96 | one row per non-null record, cell i being field i or "" past the record's end |
| CsvParsing.ParseToDataTable | CsvConverterTool/Converters/CsvParser.cs:44-100 | a new, well-formed table whose columns are named from the first record and whose rows are the aligned non-null later records |
| TableUtils.KnownColumns | CsvConverterTool/Utilities/DataTableUtils.cs:27-33 | the kept names are a subsequence of the selection, and a name is kept exactly when it is both selected and a source column |
| TableUtils.KnownColumnsAppend | CsvConverterTool/Utilities/DataTableUtils.cs:27-33 | filtering a concatenated selection is the concatenation of the filtered parts |
| TableUtils.KnownColumnsOfKnown | CsvConverterTool/Utilities/DataTableUtils.cs:27-33 | a selection made only of source columns is kept whole and in order |
| TableUtils.ProjectionExample | CsvConverterTool/Utilities/DataTableUtils.cs:27-33 | selecting `c, missing, a` from `a, b, c` gives `c, a` |
| TableUtils.ProjectRowCompose | CsvConverterTool/Utilities/DataTableUtils.cs:36-44 | filtering an already filtered row by names among its columns equals filtering the source row once: each cell is the source cell under that name |
| TableUtils.ProjectOntoAllColumns | CsvConverterTool/Utilities/DataTableUtils.cs:36-44 | projecting a row onto all columns in column order leaves it unchanged |
| TableUtils.AddKnownColumns | CsvConverterTool/Utilities/DataTableUtils.cs:27-33 | the column loop adds exactly the known selected names, in selection order, keeping the table well formed |
| TableUtils.CopyProjectedRows | CsvConverterTool/Utilities/DataTableUtils.cs:36-44 | the row loop adds one row per source row, each the source row projected onto the new table's columns |
| TableUtils.BuildFilteredTable | CsvConverterTool/Utilities/DataTableUtils.cs:14-47 | a null source fails with ArgumentNull("source"); an absent or empty selection returns the source object itself; otherwise a new, well-formed table of the known selected columns, with every source row projected onto them |
| TableUtils.GetColumnNames | CsvConverterTool/Utilities/DataTableUtils.cs:52-58 | every column name in column order; the names are distinct for a well-formed table |
| DelimitedWriter.DoubleQuotes | CsvConverterTool/Converters/DelimitedWriter.cs:47 | doubling adds exactly one character per quote and leaves the count of every other character unchanged |
| DelimitedWriter.UndoubleDoubleQuotes | CsvConverterTool/Converters/DelimitedWriter.cs:47 | reading doubled quotes back as single ones recovers the value |
| DelimitedWriter.EscapeField | CsvConverterTool/Converters/DelimitedWriter.cs:38-52 | a field without delimiter, quote, LF or CR is verbatim; the result is wrapped in quotes exactly when the field holds one of them, and then its inside is the field with every quote doubled |
| DelimitedWriter.EscapeFieldRoundTrip | CsvConverterTool/Converters/DelimitedWriter.cs:38-52 | escaping is lossless: unescaping gives the original value |
| DelimitedWriter.JoinShape | CsvConverterTool/Converters/DelimitedWriter.cs:25 | a joined line starts with the first field and holds every field's characters plus one separator between each two neighbouring fields, so it has exactly one separator fewer than fields beyond those inside the fields |
| DelimitedWriter.SplitJoin | CsvConverterTool/Converters/DelimitedWriter.cs:25 | joining fields that do not contain the separator is undone by cutting at the separator |
| DelimitedWriter.EscapedLineSplit | CsvConverterTool/Converters/DelimitedWriter.cs:22-25 | a line whose fields need no quoting splits back into exactly those fields |
| DelimitedWriter.TerminatedAppend | CsvConverterTool/Converters/DelimitedWriter.cs:34 | each further `WriteLine` appends its line and one terminator to the text |
| DelimitedWriter.Save | CsvConverterTool/Converters/DelimitedWriter.cs:14-36 | a null table fails with ArgumentNull("table"); a blank path fails with ArgumentInvalid("path", "Path is required."); otherwise the header line and then one line per row, each the escaped fields joined by the delimiter, and the text is those lines each followed by the terminator |
| JsonWriter.RowDictionaryUnique | CsvConverterTool/Converters/JsonWriter.cs:22-30 | the dictionary built for a row is determined by the row, and two rows give the same dictionary only when they are equal |
| JsonWriter.RowDictionaryExists | CsvConverterTool/Converters/JsonWriter.cs:22-30 | when the column names are distinct, every row has a dictionary that maps each column name to its cell |
| JsonWriter.Save | CsvConverterTool/Converters/JsonWriter.cs:15-39 | the same two argument errors; otherwise one dictionary per row, with exactly the column names as keys, each mapped to that row's cell |
| ColumnSelection.CheckedNames | CsvConverterTool/ColumnSelectionWindow.xaml.cs:53-57 | the selection follows box order and contains a name exactly when it is non-empty and shown by a ticked box |
| ColumnSelection.CheckedNamesFollowColumns | CsvConverterTool/ColumnSelectionWindow.xaml.cs:53-57 | the confirmed names are a subsequence of the columns, and distinct when the columns are |
| ColumnSelection.CheckedNamesAllOrNone | CsvConverterTool/ColumnSelectionWindow.xaml.cs:35-49 | with no box ticked nothing is selected; with every box ticked and no name empty, every column is selected |
| ColumnSelection.InitialBoxes | CsvConverterTool/ColumnSelectionWindow.xaml.cs:19-32 | one box per column, showing the column names in order |
| ColumnSelection.CheckedInitialBoxes | CsvConverterTool/ColumnSelectionWindow.xaml.cs:19-57 | with a non-empty earlier selection, confirming the opening boxes selects the columns that were selected before, in column order |
| ColumnSelection.ChosenOfSubsequence | CsvConverterTool/ColumnSelectionWindow.xaml.cs:19-57 | the columns of a subsequence of distinct columns, taken in column order, are that subsequence |
| ColumnSelection.RunDialogKeepsColumns | CsvConverterTool/ColumnSelectionWindow.xaml.cs:51-75 | user actions never change the boxes' names; a confirmed selection is a subsequence of them; the window closes only through an OK |
| ColumnSelection.SelectAllThenOk | CsvConverterTool/ColumnSelectionWindow.xaml.cs:35-75 | "select all" then OK confirms every column |
| ColumnSelection.DeselectAllThenOk | CsvConverterTool/ColumnSelectionWindow.xaml.cs:43-75 | "deselect all" then OK keeps the window open with the old selection on No, and confirms the empty selection on Yes |
| ColumnSelection.ReopenThenOk | CsvConverterTool/ColumnSelectionWindow.xaml.cs:15-75 | reopening on a confirmed selection and pressing OK gives it back; an empty one comes back as all columns |
| ColumnSelection.ColumnSelectionWindow.constructor | CsvConverterTool/ColumnSelectionWindow.xaml.cs:15-33 | one box per column, ticked when nothing was selected before or the column was; no selection and no dialog result yet |
| ColumnSelection.ColumnSelectionWindow.SelectAllClick | CsvConverterTool/ColumnSelectionWindow.xaml.cs:35-41 | every box ticked; names, selection and result unchanged |
| ColumnSelection.ColumnSelectionWindow.DeselectAllClick | CsvConverterTool/ColumnSelectionWindow.xaml.cs:43-49 | every box cleared; names, selection and result unchanged |
| ColumnSelection.ColumnSelectionWindow.OkClick | CsvConverterTool/ColumnSelectionWindow.xaml.cs:51-75 | nothing changes when nothing is ticked and the answer is No; otherwise the selection becomes the ticked names and the dialog result becomes true |
| MainWindowState.EncodingFor | CsvConverterTool/MainWindow.xaml.cs:238-247 | Shift-JIS and Windows-1252 by their exact names; every other name is UTF-8 without BOM |
| MainWindowState.SelectedEncodingName | CsvConverterTool/MainWindow.xaml.cs:229-236 | the selected content, or a name that maps to UTF-8 when there is none |
| MainWindowState.SelectedOutputFormat | CsvConverterTool/MainWindow.xaml.cs:220-227 | the selected content, or "CSV" when there is none |
| MainWindowState.DelimiterFromTag | CsvConverterTool/MainWindow.xaml.cs:202-218 | no delimiter exactly when there is no tag or it is empty; the tag `\t` is a tab; any other tag gives its first character |
| MainWindowState.WriterFor | CsvConverterTool/MainWindow.xaml.cs:98-106 | JSON exactly for "JSON"; tab-delimited for "TSV"; comma-delimited for anything else |
| MainWindowState.SavedDelimiterIsDetectable | CsvConverterTool/MainWindow.xaml.cs:104 | the delimiters a save can use are among the default detection candidates |
| MainWindowState.ChooseDelimiter | CsvConverterTool/MainWindow.xaml.cs:158-172 | an explicit delimiter overrides detection; otherwise an unreadable file fails, and the detected delimiter is used when there is one |
| MainWindowState.MainWindow.constructor | CsvConverterTool/MainWindow.xaml.cs:18-24 | no table and no selection |
| MainWindowState.MainWindow.LoadCsv | CsvConverterTool/MainWindow.xaml.cs:152-196 | a failed detection changes nothing; an exception clears table and selection; a load installs a new table of the parsed records with all its columns selected; the window stays consistent |
| MainWindowState.MainWindow.SelectColumns | CsvConverterTool/MainWindow.xaml.cs:119-146 | without a table or columns nothing happens; otherwise the dialog opens on the columns and the current selection, and the selection becomes the confirmed one exactly when the played actions confirm |
| MainWindowState.MainWindow.SaveAs | CsvConverterTool/MainWindow.xaml.cs:44-117 | no table or no rows, no columns, and a dismissed dialog are refused in that order; a blank path fails; otherwise the selected columns of every row are written as JSON dictionaries or as escaped delimited lines, with the chosen encoding |

Specification functions without a row (`DelimitedWriter.Join`, `DelimitedWriter.EscapeAll`, `TableUtils.ProjectRow`, `CsvParsing.Best`, `Strings.IsBlank`) are described by the lemmas about them.

## Left out

- Tokenising by `TextFieldParser` (quoted fields, skipped blank lines, malformed-line exceptions) is an input: records are given as a sequence of optional field lists.
- File I/O and the encodings' byte forms: the file is given as its lines and records, and output as lines, text or dictionaries. The encoding is a tag. The model does not include the `CodePagesEncodingProvider` registration in `App.xaml.cs`.
- The JSON text produced by `System.Text.Json`: indentation and string escaping. The list of dictionaries handed to the serializer is modelled.
- Dictionary key order. A dictionary is modelled as a `map`, so the column order of the keys inside each JSON object is not captured.
- `DataTable`'s case-insensitive column-name comparison, and the `DuplicateNameException` it would raise for names differing only in case. Names are compared exactly.
- Null and `DBNull` cells. Cells are plain strings; both writers would write such a cell as an empty string.
- The preview `BuildFilteredTable` call, status texts, message boxes, the window title and the data grid. They affect only the display.
- The save dialog's filter and default extension. An unexpected exception while saving is modelled only for the argument checks of the writers; a failure while writing the file is not modelled.
- MainWindowState.MainWindow.LoadCsv: the new table's rows are fixed by the records `readRecords` returns. Whether those records match `fileLines` is not modelled, because both are inputs.
- No round trip from the delimited writer back to the parser is claimed. Tokenising is not modelled, so only field escaping (`EscapeFieldRoundTrip`) and line joining for fields that do not contain the separator (`SplitJoin`, `EscapedLineSplit`) are shown to be reversible. A quoted field holding the delimiter is cut apart by `Split`; reading it back needs the quote-aware tokeniser.
- TableUtils.BuildFilteredTable: a selection that repeats a name is excluded by its precondition. For a repeated known name the source would throw `DuplicateNameException` from `Columns.Add`; a repeated unknown name would be skipped. Both callers pass `_selectedColumns`: either the loaded table's column names or the dialog's confirmed selection. Both are distinct, which `MainWindowState.MainWindow.Valid()` states.
- Characters are Unicode scalar values rather than the UTF-16 code units a .NET string holds. The first character of a delimiter tag and the delimiter counts differ only outside the Basic Multilingual Plane, which no candidate delimiter or tag uses.
