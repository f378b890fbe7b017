/**
 * The part of `System.Data.DataTable` the converter uses: an ordered list of
 * column names and a list of rows, each row holding one string per column.
 * A `DataTable` never holds two columns of the same name and every row has
 * a cell for every column; `Valid()` states both.
 */
module Tables {
  import opened Basics

  class DataTable {
    var columns: seq<string>
    var rows: seq<seq<string>>

    /** The table's own invariant: names are non-empty and unique, and every
        row is aligned with the columns. */
    ghost predicate Valid()
      reads this
    {
      && Distinct(columns)
      && (forall j :: 0 <= j < |columns| ==> columns[j] != "")
      && (forall i :: 0 <= i < |rows| ==> |rows[i]| == |columns|)
    }

    /** `new DataTable()`: no columns, no rows. */
    constructor ()
      ensures Valid() && columns == [] && rows == []
    {
      columns := [];
      rows := [];
    }

    /** `Columns.Add(name)`: appends a column; rows already present get an
        empty cell for it. */
    method AddColumn(name: string)
      requires Valid()
      requires name != "" && name !in columns
      modifies this
      ensures Valid()
      ensures columns == old(columns) + [name]
      ensures |rows| == |old(rows)|
      ensures forall i :: 0 <= i < |rows| ==> rows[i] == old(rows[i]) + [""]
    {
      var before := rows;
      columns := columns + [name];
      rows := seq(|before|, i requires 0 <= i < |before| => before[i] + [""]);
    }

    /** `Rows.Add(row)` for a row made by `NewRow()`, so one cell per column. */
    method AddRow(cells: seq<string>)
      requires Valid()
      requires |cells| == |columns|
      modifies this
      ensures Valid()
      ensures columns == old(columns)
      ensures rows == old(rows) + [cells]
    {
      rows := rows + [cells];
    }
  }

  /** Position of a column name (the lookup behind `row[name]`). */
  function IndexOf(names: seq<string>, name: string): (k: nat)
    requires name in names
    ensures k < |names| && names[k] == name
    ensures forall j :: 0 <= j < k ==> names[j] != name
  {
    if names[0] == name then 0 else 1 + IndexOf(names[1..], name)
  }

  /** Among unique names, the name at position k is found at position k. */
  lemma IndexOfDistinct(names: seq<string>, k: nat)
    requires Distinct(names) && k < |names|
    ensures IndexOf(names, names[k]) == k
  {
  }
}
