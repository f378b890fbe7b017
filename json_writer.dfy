/**
 * `JsonWriter`: the list of name-to-value dictionaries, one per row, that
 * `Save` hands to `JsonSerializer`. The JSON text itself is not modelled.
 */
module JsonWriter {
  import opened Basics
  import opened Strings
  import opened Tables

  /** `dict` maps exactly the column names, each to the row's cell under it. */
  ghost predicate RowDictionary(dict: map<string, string>, columns: seq<string>, cells: seq<string>)
    requires |cells| == |columns|
  {
    && (forall k :: k in dict <==> k in columns)
    && (forall j :: 0 <= j < |columns| ==> dict[columns[j]] == cells[j])
  }

  /** A row's dictionary is determined by the row, and the row by its
      dictionary: the JSON object loses nothing and adds nothing. */
  lemma RowDictionaryUnique(d1: map<string, string>, d2: map<string, string>, columns: seq<string>,
                            c1: seq<string>, c2: seq<string>)
    requires |c1| == |columns| && |c2| == |columns|
    requires RowDictionary(d1, columns, c1) && RowDictionary(d2, columns, c2)
    ensures d1 == d2 <==> c1 == c2
  {
    if c1 == c2 {
      forall k | k in d1 ensures d1[k] == d2[k] {
        var j :| 0 <= j < |columns| && columns[j] == k;
      }
    }
  }

  /** With distinct column names every row has a dictionary (with a repeated
      name two cells would compete for one key). */
  lemma RowDictionaryExists(columns: seq<string>, cells: seq<string>)
    requires |cells| == |columns| && Distinct(columns)
    ensures exists d :: RowDictionary(d, columns, cells)
  {
    var d := map j | 0 <= j < |columns| :: columns[j] := cells[j];
    assert forall j :: 0 <= j < |columns| ==> columns[j] in d && d[columns[j]] == cells[j];
    assert RowDictionary(d, columns, cells);
  }

  /** `Save(table, path, encoding)` up to the call of `JsonSerializer.Serialize`. */
  method Save(table: DataTable?, path: string) returns (r: Result<seq<map<string, string>>, ArgumentError>)
    requires table != null ==> table.Valid()
    ensures table == null ==> r == Failure(ArgumentNull("table"))
    ensures table != null && IsBlank(path) ==> r == Failure(ArgumentInvalid("path", "Path is required."))
    ensures table != null && !IsBlank(path) ==>
      && r.Success?
      && |r.value| == |table.rows|
      && forall i :: 0 <= i < |table.rows| ==> RowDictionary(r.value[i], table.columns, table.rows[i])
  {
    if table == null {
      return Failure(ArgumentNull("table"));
    }
    if IsBlank(path) {
      return Failure(ArgumentInvalid("path", "Path is required."));
    }

    var rows: seq<map<string, string>> := [];
    for i := 0 to |table.rows|
      invariant |rows| == i
      invariant forall r :: 0 <= r < i ==> RowDictionary(rows[r], table.columns, table.rows[r])
    {
      var row := table.rows[i];
      var dict: map<string, string> := map[];
      for j := 0 to |table.columns|
        invariant forall k :: k in dict <==> k in table.columns[..j]
        invariant forall jj :: 0 <= jj < j ==> dict[table.columns[jj]] == row[jj]
      {
        assert table.columns[..j + 1] == table.columns[..j] + [table.columns[j]];
        dict := dict[table.columns[j] := row[j]];
      }
      assert table.columns[..|table.columns|] == table.columns;
      rows := rows + [dict];
    }
    return Success(rows);
  }
}
