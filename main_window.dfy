/**
 * `MainWindow`: the current table and the selected columns, how loading a
 * file, choosing columns and saving change or use them, and the mappings
 * from the combo boxes to a delimiter, an encoding and an output writer.
 *
 * The combo-box selections, the file and save dialogs, the file contents
 * and the records `TextFieldParser` reads are inputs; status text, message
 * boxes, the window title and the data grid are not modelled.
 */
module MainWindowState {
  import opened Basics
  import opened Strings
  import opened Tables
  import opened CsvParsing
  import opened TableUtils
  import opened ColumnSelection
  import DelimitedWriter
  import JsonWriter

  // ---------------------------------------------------------------
  // Combo-box mappings
  // ---------------------------------------------------------------

  /** The encodings the window offers. */
  datatype Encoding = Utf8NoBom | ShiftJis | Windows1252

  /** The `encodingName switch` of `GetSelectedEncoding` and `btnSaveAs_Click`. */
  function EncodingFor(name: string): (e: Encoding)
    ensures e == ShiftJis <==> name == "Shift-JIS"
    ensures e == Windows1252 <==> name == "Windows-1252"
    ensures e == Utf8NoBom <==> name != "Shift-JIS" && name != "Windows-1252"
  {
    match name
    case "Shift-JIS" => ShiftJis
    case "Windows-1252" => Windows1252
    case _ => Utf8NoBom
  }

  /** `GetSelectedEncodingName`; `content` is the selected item's content,
      `None` when there is no selected item or its content is null. */
  function SelectedEncodingName(content: Option<string>): (name: string)
    ensures content.Some? ==> name == content.value
    ensures content.None? ==> EncodingFor(name) == Utf8NoBom
  {
    if content.Some? then content.value else "UTF-8"
  }

  /** `GetSelectedOutputFormat`, with the same reading of `content`. */
  function SelectedOutputFormat(content: Option<string>): (format: string)
    ensures content.Some? ==> format == content.value
    ensures content.None? ==> format == "CSV"
  {
    if content.Some? then content.value else "CSV"
  }

  /** `GetSelectedDelimiter`; `tag` is the selected item's tag, `None` when
      there is no selected item or its tag is not a string. */
  function DelimiterFromTag(tag: Option<string>): (d: Option<char>)
    ensures d.None? <==> tag.None? || tag.value == ""
    ensures tag == Some("\\t") ==> d == Some('\t')
    ensures tag.Some? && tag.value != "" && tag.value != "\\t" ==> d == Some(tag.value[0])
  {
    if tag.None? || tag.value == "" then None
    else if tag.value == "\\t" then Some('\t')
    else Some(tag.value[0])
  }

  /** How `btnSaveAs_Click` writes a given format. */
  datatype OutputWriter = JsonOutput | DelimitedOutput(delimiter: char)

  function WriterFor(format: string): (w: OutputWriter)
    ensures w == JsonOutput <==> format == "JSON"
    ensures format == "TSV" ==> w == DelimitedOutput('\t')
    ensures format != "JSON" && format != "TSV" ==> w == DelimitedOutput(',')
  {
    if format == "JSON" then JsonOutput
    else DelimitedOutput(if format == "TSV" then '\t' else ',')
  }

  /** Every delimiter a save can use is one detection tries by default. */
  lemma SavedDelimiterIsDetectable(format: string)
    ensures WriterFor(format).DelimitedOutput? ==> WriterFor(format).delimiter in DefaultCandidates
  {
  }

  // ---------------------------------------------------------------
  // Loading
  // ---------------------------------------------------------------

  /** Where the delimiter of a load comes from. */
  datatype DelimiterStep =
    | ReadFailed            // reading the file for detection threw
    | NotDetected           // detection found no candidate
    | UseDelimiter(d: char)

  /** The delimiter step of `LoadCsv`: the explicit delimiter if one is
      chosen, otherwise the one detected over the file's lines. */
  function ChooseDelimiter(explicit: Option<char>, fileLines: Option<seq<string>>): (step: DelimiterStep)
    ensures explicit.Some? ==> step == UseDelimiter(explicit.value)
    ensures explicit.None? && fileLines.None? ==> step == ReadFailed
    ensures explicit.None? && fileLines.Some? ==>
      (step == NotDetected <==> Detect(fileLines.value, None).None?) &&
      (step.UseDelimiter? ==> Detect(fileLines.value, None) == Some(step.d))
  {
    if explicit.Some? then UseDelimiter(explicit.value)
    else if fileLines.None? then ReadFailed
    else
      match Detect(fileLines.value, None)
      case None => NotDetected
      case Some(d) => UseDelimiter(d)
  }

  /** What pressing "Save As" did. */
  datatype SaveOutcome =
    | NoData                       // no table, or a table without rows
    | NoColumns                    // nothing selected
    | Cancelled                    // the save dialog was dismissed
    | SavedJson(path: string, encoding: Encoding, objects: seq<map<string, string>>)
    | SavedDelimited(path: string, encoding: Encoding, delimiter: char, written: DelimitedWriter.Written)
    | SaveFailed(error: ArgumentError)

  class MainWindow {
    var currentTable: DataTable?
    var selectedColumns: seq<string>

    /** No selection without a table; with a table, the selection is made of
        its columns, each once, in column order. */
    ghost predicate Valid()
      reads this, currentTable
    {
      && (currentTable == null ==> selectedColumns == [])
      && (currentTable != null ==>
            && currentTable.Valid()
            && IsSubsequence(selectedColumns, currentTable.columns)
            && Distinct(selectedColumns)
            && (forall x :: x in selectedColumns ==> x in currentTable.columns))
    }

    constructor ()
      ensures Valid() && currentTable == null && selectedColumns == []
    {
      currentTable := null;
      selectedColumns := [];
    }

    /** `LoadCsv(filePath)`. `fileLines` is the file as `File.ReadLines` sees
        it (`None` when reading throws); `readRecords` gives what
        `TextFieldParser` reads with a delimiter and an encoding (`None` when
        it throws). */
    method LoadCsv(tag: Option<string>, encodingItem: Option<string>, fileLines: Option<seq<string>>,
                   readRecords: (char, Encoding) -> Option<seq<Record>>)
      requires Valid()
      modifies this
      ensures Valid()
      ensures var step := ChooseDelimiter(DelimiterFromTag(tag), fileLines);
        && (step.ReadFailed? ==> currentTable == null && selectedColumns == [])
        && (step.NotDetected? ==>
              currentTable == old(currentTable) && selectedColumns == old(selectedColumns))
        && (step.UseDelimiter? ==>
              var parsed := readRecords(step.d, EncodingFor(SelectedEncodingName(encodingItem)));
              && (parsed.None? ==> currentTable == null && selectedColumns == [])
              && (parsed.Some? ==>
                    && currentTable != null && fresh(currentTable)
                    && IsTableOf(parsed.value, currentTable.columns, currentTable.rows)
                    && selectedColumns == currentTable.columns))
    {
      var delimiter := DelimiterFromTag(tag);
      if delimiter.None? {
        if fileLines.None? {
          // the exception handler
          currentTable := null;
          selectedColumns := [];
          return;
        }
        delimiter := DetectDelimiter(fileLines.value, None);
      }

      if delimiter.None? {
        // "Delimiter detection failed"
        return;
      }

      var encoding := EncodingFor(SelectedEncodingName(encodingItem));
      var records := readRecords(delimiter.value, encoding);
      if records.None? {
        // the exception handler
        currentTable := null;
        selectedColumns := [];
        return;
      }
      var table := ParseToDataTable(records.value);
      currentTable := table;

      // By default, all columns selected
      selectedColumns := GetColumnNames(table);
      SubsequenceReflexive(table.columns);
    }

    /** `btnSelectColumns_Click`: opens the dialog on the table's columns and
        the current selection, plays the user's `actions` until OK succeeds
        or they run out (the window is then closed), and adopts the dialog's
        selection only when `ShowDialog()` returns true. */
    method SelectColumns(actions: seq<DialogAction>) returns (accepted: bool)
      requires Valid()
      modifies this
      ensures Valid() && currentTable == old(currentTable)
      ensures old(currentTable) == null || |old(currentTable.columns)| == 0 ==>
        !accepted && selectedColumns == old(selectedColumns)
      ensures old(currentTable) != null && |old(currentTable.columns)| > 0 ==>
        var final := RunDialog(OpenDialog(old(currentTable.columns), Some(old(selectedColumns))), actions);
        && accepted == final.confirmed
        && selectedColumns == (if accepted then final.selected else old(selectedColumns))
    {
      if currentTable == null || |currentTable.columns| == 0 {
        return false;
      }
      var allColumns := GetColumnNames(currentTable);
      var dialog := new ColumnSelectionWindow(allColumns, Some(selectedColumns));
      ghost var final := RunDialog(OpenDialog(allColumns, Some(selectedColumns)), actions);
      assert allColumns == currentTable.columns;
      var k := 0;
      while k < |actions| && dialog.dialogResult != Some(true)
        invariant 0 <= k <= |actions|
        invariant dialog.Valid() && dialog.columns == allColumns
        invariant currentTable == old(currentTable) && selectedColumns == old(selectedColumns)
        invariant RunDialog(dialog.State(), actions[k..]) == final
        decreases |actions| - k
      {
        ghost var before := dialog.State();
        match actions[k] {
          case SelectAll => dialog.SelectAllClick();
          case DeselectAll => dialog.DeselectAllClick();
          case Toggle(i) =>
            if i < |dialog.boxes| {
              dialog.ToggleBox(i);
            }
          case Confirm(answer) => dialog.OkClick(answer);
        }
        assert dialog.State() == Step(before, actions[k]);
        assert actions[k..][1..] == actions[k + 1..];
        k := k + 1;
      }
      accepted := dialog.dialogResult == Some(true);
      if accepted {
        selectedColumns := dialog.selectedColumns;
        SubsequenceMembers(selectedColumns, currentTable.columns);
        SubsequenceDistinct(selectedColumns, currentTable.columns);
      }
    }

    /** `btnSaveAs_Click`. `formatItem` and `encodingItem` are the selected
        combo-box contents, `savePath` the file the save dialog returns
        (`None` when it is dismissed), `newline` the line terminator. */
    method SaveAs(formatItem: Option<string>, encodingItem: Option<string>, savePath: Option<string>,
                  newline: string)
      returns (outcome: SaveOutcome)
      requires Valid()
      ensures currentTable == null || |currentTable.rows| == 0 ==> outcome == NoData
      ensures currentTable != null && |currentTable.rows| > 0 && selectedColumns == [] ==>
        outcome == NoColumns
      ensures currentTable != null && |currentTable.rows| > 0 && selectedColumns != [] && savePath.None? ==>
        outcome == Cancelled
      ensures currentTable != null && |currentTable.rows| > 0 && selectedColumns != [] &&
              savePath.Some? && IsBlank(savePath.value) ==>
        outcome == SaveFailed(ArgumentInvalid("path", "Path is required."))
      ensures currentTable != null && |currentTable.rows| > 0 && selectedColumns != [] &&
              savePath.Some? && !IsBlank(savePath.value) ==>
        var encoding := EncodingFor(SelectedEncodingName(encodingItem));
        var t := currentTable;
        match WriterFor(SelectedOutputFormat(formatItem))
        case JsonOutput =>
          && outcome.SavedJson? && outcome.path == savePath.value && outcome.encoding == encoding
          && |outcome.objects| == |t.rows|
          && forall i :: 0 <= i < |t.rows| ==>
               JsonWriter.RowDictionary(outcome.objects[i], selectedColumns,
                                        ProjectRow(t.rows[i], t.columns, selectedColumns))
        case DelimitedOutput(d) =>
          && outcome.SavedDelimited? && outcome.path == savePath.value && outcome.encoding == encoding
          && outcome.delimiter == d
          && |outcome.written.lines| == |t.rows| + 1
          && outcome.written.lines[0] == DelimitedWriter.EscapedLine(selectedColumns, d)
          && (forall i :: 0 <= i < |t.rows| ==>
               outcome.written.lines[i + 1] ==
                 DelimitedWriter.EscapedLine(ProjectRow(t.rows[i], t.columns, selectedColumns), d))
          && outcome.written.text == DelimitedWriter.Terminated(outcome.written.lines, newline)
    {
      if currentTable == null || |currentTable.rows| == 0 {
        return NoData;
      }
      if |selectedColumns| == 0 {
        return NoColumns;
      }
      var format := SelectedOutputFormat(formatItem);
      if savePath.None? {
        return Cancelled;
      }
      var encoding := EncodingFor(SelectedEncodingName(encodingItem));
      var outputPath := savePath.value;

      // Filter to selected columns
      var filtered := BuildFilteredTable(currentTable, Some(selectedColumns));
      KnownColumnsOfKnown(selectedColumns, currentTable.columns);
      var toSave := filtered.value;

      match WriterFor(format)
      case JsonOutput =>
        var r := JsonWriter.Save(toSave, outputPath);
        if r.Failure? {
          return SaveFailed(r.error);
        }
        return SavedJson(outputPath, encoding, r.value);
      case DelimitedOutput(d) =>
        var r := DelimitedWriter.Save(toSave, outputPath, d, newline);
        if r.Failure? {
          return SaveFailed(r.error);
        }
        return SavedDelimited(outputPath, encoding, d, r.value);
    }
  }
}
