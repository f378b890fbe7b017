/**
 * `DataTableUtils`: projecting a table onto a chosen, ordered list of
 * column names, and listing a table's column names.
 */
module TableUtils {
  import opened Basics
  import opened Tables

  /** The selected names that are columns of the source, in selection order. */
  function KnownColumns(selected: seq<string>, columns: seq<string>): (r: seq<string>)
    ensures IsSubsequence(r, selected)
    ensures forall x :: x in r <==> x in selected && x in columns
  {
    if selected == [] then []
    else
      var rest := KnownColumns(selected[1..], columns);
      assert forall x :: x in selected <==> x == selected[0] || x in selected[1..] by {
        assert selected == [selected[0]] + selected[1..];
      }
      if selected[0] in columns then
        assert ([selected[0]] + rest)[1..] == rest;
        [selected[0]] + rest
      else rest
  }

  lemma {:induction false} KnownColumnsAppend(a: seq<string>, b: seq<string>, columns: seq<string>)
    ensures KnownColumns(a + b, columns) == KnownColumns(a, columns) + KnownColumns(b, columns)
  {
    if a == [] {
      assert a + b == b;
    } else {
      assert (a + b)[1..] == a[1..] + b;
      KnownColumnsAppend(a[1..], b, columns);
    }
  }

  /** A selection made only of known names is kept whole: projecting onto
      columns picked from the table keeps exactly them, in the same order. */
  lemma {:induction false} KnownColumnsOfKnown(selected: seq<string>, columns: seq<string>)
    requires forall x :: x in selected ==> x in columns
    ensures KnownColumns(selected, columns) == selected
  {
    if selected != [] {
      assert selected[0] in selected;
      assert forall x :: x in selected[1..] ==> x in selected;
      KnownColumnsOfKnown(selected[1..], columns);
    }
  }

  /** Unknown names are dropped and order follows the selection:
      selecting `c, missing, a` from `a, b, c` gives `c, a`. */
  lemma ProjectionExample()
    ensures KnownColumns(["c", "missing", "a"], ["a", "b", "c"]) == ["c", "a"]
  {
    assert "missing" !in ["a", "b", "c"];
    assert KnownColumns(["a"], ["a", "b", "c"]) == ["a"];
    assert ["c", "missing", "a"][1..] == ["missing", "a"];
    assert ["missing", "a"][1..] == ["a"];
  }

  /** A source row restricted to `names`: the cell under each name, in the
      order of `names`. */
  function ProjectRow(row: seq<string>, columns: seq<string>, names: seq<string>): (r: seq<string>)
    requires |row| == |columns|
    requires forall x :: x in names ==> x in columns
    ensures |r| == |names|
  {
    seq(|names|, j requires 0 <= j < |names| => row[IndexOf(columns, names[j])])
  }

  /** Projecting onto every column, in column order, keeps the row as it is. */
  lemma ProjectOntoAllColumns(row: seq<string>, columns: seq<string>)
    requires |row| == |columns| && Distinct(columns)
    ensures ProjectRow(row, columns, columns) == row
  {
    forall j | 0 <= j < |columns| ensures ProjectRow(row, columns, columns)[j] == row[j] {
      IndexOfDistinct(columns, j);
    }
  }

  /** Filtering a filtered row again is filtering once: the cell under a
      name is the source cell under that name. */
  lemma ProjectRowCompose(row: seq<string>, columns: seq<string>, names: seq<string>, sub: seq<string>)
    requires |row| == |columns| && Distinct(names)
    requires forall x :: x in names ==> x in columns
    requires forall x :: x in sub ==> x in names
    ensures ProjectRow(ProjectRow(row, columns, names), names, sub) == ProjectRow(row, columns, sub)
  {
    forall j | 0 <= j < |sub|
      ensures ProjectRow(ProjectRow(row, columns, names), names, sub)[j] == ProjectRow(row, columns, sub)[j]
    {
      var k := IndexOf(names, sub[j]);
      assert names[k] == sub[j];
    }
  }

  /** The column loop of `BuildFilteredTable`: the selected names that the
      source has, in selection order. */
  method AddKnownColumns(clone: DataTable, selected: seq<string>, columns: seq<string>)
    requires clone.Valid() && clone.columns == [] && clone.rows == []
    requires Distinct(selected) && "" !in columns
    modifies clone
    ensures clone.Valid() && clone.rows == []
    ensures clone.columns == KnownColumns(selected, columns)
  {
    for k := 0 to |selected|
      invariant clone.Valid() && clone.rows == []
      invariant clone.columns == KnownColumns(selected[..k], columns)
    {
      assert selected[..k + 1] == selected[..k] + [selected[k]];
      KnownColumnsAppend(selected[..k], [selected[k]], columns);
      assert [selected[k]][1..] == [];
      if selected[k] in columns {
        assert selected[k] !in selected[..k];
        clone.AddColumn(selected[k]);
      }
    }
    assert selected[..|selected|] == selected;
  }

  /** The row loop of `BuildFilteredTable`: each source row, cell by cell
      under the clone's column names. */
  method CopyProjectedRows(clone: DataTable, source: DataTable)
    requires clone != source && clone.Valid() && clone.rows == [] && source.Valid()
    requires forall x :: x in clone.columns ==> x in source.columns
    modifies clone
    ensures clone.Valid() && clone.columns == old(clone.columns)
    ensures |clone.rows| == |source.rows|
    ensures forall i :: 0 <= i < |source.rows| ==>
      clone.rows[i] == ProjectRow(source.rows[i], source.columns, clone.columns)
  {
    var names := clone.columns;
    for i := 0 to |source.rows|
      invariant clone.Valid() && clone.columns == names
      invariant |clone.rows| == i
      invariant forall r :: 0 <= r < i ==> clone.rows[r] == ProjectRow(source.rows[r], source.columns, names)
    {
      var row := source.rows[i];
      var newRow := seq(|names|, _ => "");
      ghost var rowsBefore := clone.rows;
      for j := 0 to |names|
        invariant clone.columns == names && clone.rows == rowsBefore
        invariant |newRow| == |names|
        invariant forall jj :: 0 <= jj < j ==> newRow[jj] == row[IndexOf(source.columns, names[jj])]
      {
        var name := names[j];
        IndexOfDistinct(names, j);
        newRow := newRow[IndexOf(names, name) := row[IndexOf(source.columns, name)]];
      }
      clone.AddRow(newRow);
    }
  }

  /** `BuildFilteredTable(source, selectedColumns)`. */
  method BuildFilteredTable(source: DataTable?, selectedColumns: Option<seq<string>>)
    returns (r: Result<DataTable, ArgumentError>)
    requires source != null ==> source.Valid()
    requires selectedColumns.Some? ==> Distinct(selectedColumns.value)
    ensures source == null ==> r == Failure(ArgumentNull("source"))
    ensures source != null && (selectedColumns.None? || selectedColumns.value == []) ==>
      r.Success? && r.value == source
    ensures source != null && selectedColumns.Some? && selectedColumns.value != [] ==>
      && r.Success? && fresh(r.value) && r.value.Valid()
      && r.value.columns == KnownColumns(selectedColumns.value, source.columns)
      && |r.value.rows| == |source.rows|
      && forall i :: 0 <= i < |source.rows| ==>
           r.value.rows[i] == ProjectRow(source.rows[i], source.columns, r.value.columns)
  {
    if source == null {
      return Failure(ArgumentNull("source"));
    }
    var selected := if selectedColumns.None? then [] else selectedColumns.value;
    if |selected| == 0 {
      return Success(source);
    }

    var clone := new DataTable();
    assert "" !in source.columns;
    // Add selected columns
    AddKnownColumns(clone, selected, source.columns);
    // Copy rows
    CopyProjectedRows(clone, source);
    return Success(clone);
  }

  /** `GetColumnNames(table)`: every column name, in column order. */
  function GetColumnNames(table: DataTable): (r: seq<string>)
    reads table
    ensures |r| == |table.columns| && forall j :: 0 <= j < |r| ==> r[j] == table.columns[j]
    ensures table.Valid() ==> Distinct(r)
  {
    table.columns
  }
}
