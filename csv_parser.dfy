/**
 * `CsvParser`: delimiter detection on the lines of a file, and the step that
 * turns the records read by `TextFieldParser` into a `DataTable` (unique
 * header names, rows padded or truncated to the header width).
 *
 * Tokenising the text into records is done by the VisualBasic
 * `TextFieldParser`; here a file is given as the records that parser yields,
 * one `Option<seq<string>>` per `ReadFields()` call (`None` for a null result).
 */
module CsvParsing {
  import opened Basics
  import opened Strings
  import opened Tables

  /** One `ReadFields()` result. */
  type Record = Option<seq<string>>

  /** The candidates used when the caller supplies none, in checking order. */
  const DefaultCandidates: seq<char> := [',', ';', '\t', '|']

  function Candidates(candidates: Option<seq<char>>): seq<char>
  {
    if candidates.None? then DefaultCandidates else candidates.value
  }

  // ---------------------------------------------------------------
  // Delimiter detection
  // ---------------------------------------------------------------

  /** The first line that is not blank, as `FirstOrDefault` finds it. */
  function FirstNonBlank(lines: seq<string>): (r: Option<string>)
    ensures r.None? <==> forall i :: 0 <= i < |lines| ==> IsBlank(lines[i])
    ensures r.Some? ==> !IsBlank(r.value)
    ensures r.Some? ==>
      exists i :: 0 <= i < |lines| && lines[i] == r.value && forall j :: 0 <= j < i ==> IsBlank(lines[j])
  {
    if lines == [] then None
    else if !IsBlank(lines[0]) then Some(lines[0])
    else
      var r := FirstNonBlank(lines[1..]);
      assert r.Some? ==> exists i :: 0 <= i < |lines| && lines[i] == r.value && forall j :: 0 <= j < i ==> IsBlank(lines[j]) by {
        if r.Some? {
          var i :| 0 <= i < |lines[1..]| && lines[1..][i] == r.value && forall j :: 0 <= j < i ==> IsBlank(lines[1..][j]);
          assert lines[i + 1] == r.value;
          forall j | 0 <= j < i + 1 ensures IsBlank(lines[j]) {
            if j > 0 { assert lines[j] == lines[1..][j - 1]; }
          }
        }
      }
      r
  }

  /** The count of the chosen candidate so far (0 for none). */
  function BestCount(sample: string, best: Option<char>): nat
  {
    if best.None? then 0 else Count(sample, best.value)
  }

  /** The candidate the loop of `DetectDelimiter` settles on: a later candidate
      replaces the current one only when its count is strictly greater. */
  function Best(sample: string, cs: seq<char>): Option<char>
    decreases |cs|
  {
    if cs == [] then None
    else
      var prev := Best(sample, cs[..|cs| - 1]);
      var c := cs[|cs| - 1];
      if Count(sample, c) > BestCount(sample, prev) then Some(c) else prev
  }

  /** Candidate i has the greatest count, a positive one, and no earlier
      candidate has as many. */
  ghost predicate IsEarliestMaximum(sample: string, cs: seq<char>, i: int)
  {
    && 0 <= i < |cs|
    && Count(sample, cs[i]) > 0
    && (forall j :: 0 <= j < |cs| ==> Count(sample, cs[j]) <= Count(sample, cs[i]))
    && (forall j :: 0 <= j < i ==> Count(sample, cs[j]) < Count(sample, cs[i]))
  }

  /** What `DetectDelimiter` returns for the given lines and candidates. */
  function Detect(lines: seq<string>, candidates: Option<seq<char>>): Option<char>
  {
    match FirstNonBlank(lines)
    case None => None
    case Some(sample) =>
      var best := Best(sample, Candidates(candidates));
      if BestCount(sample, best) > 0 then best else None
  }

  /** No candidate has a greater count than the one `Best` settles on. */
  lemma {:induction false} BestIsMaximal(sample: string, cs: seq<char>)
    ensures forall j :: 0 <= j < |cs| ==> Count(sample, cs[j]) <= BestCount(sample, Best(sample, cs))
    decreases |cs|
  {
    if cs != [] {
      var p := cs[..|cs| - 1];
      BestIsMaximal(sample, p);
      assert forall j :: 0 <= j < |p| ==> p[j] == cs[j];
    }
  }

  /** What `Best` settles on is the earliest candidate of maximal count. */
  lemma {:induction false} BestIsEarliest(sample: string, cs: seq<char>)
    ensures Best(sample, cs).Some? ==>
      exists i :: IsEarliestMaximum(sample, cs, i) && cs[i] == Best(sample, cs).value
    decreases |cs|
  {
    if cs != [] {
      var n := |cs| - 1;
      var p := cs[..n];
      BestIsEarliest(sample, p);
      BestIsMaximal(sample, p);
      BestIsMaximal(sample, cs);
      var prev := Best(sample, p);
      assert forall j :: 0 <= j < n ==> p[j] == cs[j];
      if Count(sample, cs[n]) > BestCount(sample, prev) {
        assert IsEarliestMaximum(sample, cs, n);
      } else if prev.Some? {
        var i :| IsEarliestMaximum(sample, p, i) && p[i] == prev.value;
        assert IsEarliestMaximum(sample, cs, i);
      }
    }
  }

  /** The fold `Best` picks the earliest candidate of maximal positive count,
      and picks nothing exactly when every count is zero. */
  lemma BestIsEarliestMaximum(sample: string, cs: seq<char>)
    ensures Best(sample, cs).None? <==> forall j :: 0 <= j < |cs| ==> Count(sample, cs[j]) == 0
    ensures Best(sample, cs).Some? ==>
      exists i :: IsEarliestMaximum(sample, cs, i) && cs[i] == Best(sample, cs).value
    ensures forall j :: 0 <= j < |cs| ==> Count(sample, cs[j]) <= BestCount(sample, Best(sample, cs))
  {
    BestIsMaximal(sample, cs);
    BestIsEarliest(sample, cs);
  }

  /** Detection: no result without a non-blank line; otherwise no result
      exactly when no candidate occurs in the sample line, and a result is
      the earliest candidate with the greatest count. */
  lemma DetectSpec(lines: seq<string>, candidates: Option<seq<char>>)
    ensures FirstNonBlank(lines).None? ==> Detect(lines, candidates).None?
    ensures FirstNonBlank(lines).Some? ==>
      var sample := FirstNonBlank(lines).value;
      var cs := Candidates(candidates);
      && (Detect(lines, candidates).None? <==> forall j :: 0 <= j < |cs| ==> Count(sample, cs[j]) == 0)
      && (Detect(lines, candidates).Some? ==>
            exists i :: IsEarliestMaximum(sample, cs, i) && cs[i] == Detect(lines, candidates).value)
  {
    if FirstNonBlank(lines).Some? {
      BestIsEarliestMaximum(FirstNonBlank(lines).value, Candidates(candidates));
    }
  }

  /** Two earliest maxima are the same candidate position: detection is
      deterministic. */
  lemma EarliestMaximumUnique(sample: string, cs: seq<char>, i: int, k: int)
    requires IsEarliestMaximum(sample, cs, i) && IsEarliestMaximum(sample, cs, k)
    ensures i == k
  {
  }

  /** `DetectDelimiter(filePath, candidates)` with the file given as its lines. */
  method DetectDelimiter(lines: seq<string>, candidates: Option<seq<char>>) returns (r: Option<char>)
    ensures r == Detect(lines, candidates)
  {
    var cs := Candidates(candidates);
    var firstLine := FirstNonBlank(lines);
    if firstLine.None? {
      return None;
    }
    var sample := firstLine.value;
    var bestDelimiter: Option<char> := None;
    var bestCount := 0;
    for k := 0 to |cs|
      invariant bestDelimiter == Best(sample, cs[..k])
      invariant bestCount == BestCount(sample, bestDelimiter)
    {
      assert cs[..k + 1][..k] == cs[..k];
      var count := Count(sample, cs[k]);
      if count > bestCount {
        bestCount := count;
        bestDelimiter := Some(cs[k]);
      }
    }
    assert cs[..|cs|] == cs;
    r := if bestCount > 0 then bestDelimiter else None;
  }

  // ---------------------------------------------------------------
  // Header names
  // ---------------------------------------------------------------

  /** `$"{baseName}_{suffix}"`. */
  function Suffixed(baseName: string, k: nat): string
  {
    baseName + "_" + NatToString(k)
  }

  /** The name a header proposes at 0-based position i, before de-duplication. */
  function Proposed(header: string, i: nat): (name: string)
    ensures name != ""
  {
    if IsBlank(header) then "Column" + NatToString(i + 1) else header
  }

  /** `name` is what the de-duplication loop makes of `baseName` given the
      names already used: `baseName` itself when unused, otherwise
      `baseName_k` for the smallest k >= 1 whose name is unused. */
  ghost predicate FreshName(name: string, baseName: string, used: seq<string>)
  {
    if baseName !in used then name == baseName
    else exists k: nat :: (k >= 1 && name == Suffixed(baseName, k) && name !in used
                           && forall j: nat :: 1 <= j < k ==> Suffixed(baseName, j) in used)
  }

  lemma FreshNameIsNew(name: string, baseName: string, used: seq<string>)
    requires FreshName(name, baseName, used) && baseName != ""
    ensures name != "" && name !in used
  {
  }

  /** A suffix whose digits are longer than every used name gives an unused name. */
  lemma LongSuffixUnused(baseName: string, used: seq<string>)
    ensures Suffixed(baseName, Pow10(MaxLength(used))) !in used
  {
    Pow10Length(MaxLength(used));
  }

  /** The exit condition of the de-duplication loop establishes `FreshName`. */
  lemma FirstFreeSuffix(name: string, baseName: string, used: seq<string>, k: nat)
    requires baseName in used && k >= 1 && name == Suffixed(baseName, k) && name !in used
    requires forall j: nat :: 1 <= j < k ==> Suffixed(baseName, j) in used
    ensures FreshName(name, baseName, used)
  {
  }

  /** The `while (dt.Columns.Contains(columnName))` loop of `ParseToDataTable`. */
  method MakeUnique(baseName: string, used: seq<string>) returns (name: string)
    ensures FreshName(name, baseName, used)
  {
    name := baseName;
    if name in used {
      var suffix: nat := 1;
      ghost var bound := Pow10(MaxLength(used));
      LongSuffixUnused(baseName, used);
      while name in used
        invariant 1 <= suffix <= bound + 1
        invariant suffix == 1 ==> name == baseName
        invariant suffix > 1 ==> name == Suffixed(baseName, suffix - 1)
        invariant forall j: nat :: 1 <= j < suffix - 1 ==> Suffixed(baseName, j) in used
        decreases bound + 1 - suffix
      {
        name := Suffixed(baseName, suffix);
        suffix := suffix + 1;
      }
      FirstFreeSuffix(name, baseName, used, suffix - 1);
    }
  }

  /** The column names the header loop produces from `headers`: one name per
      header, each the fresh version of what the header proposes with respect
      to the names before it. */
  ghost predicate NamedColumns(headers: seq<string>, columns: seq<string>)
  {
    |columns| == |headers| &&
    forall i :: 0 <= i < |headers| ==> FreshName(columns[i], Proposed(headers[i], i), columns[..i])
  }

  /** Column names are pairwise distinct and non-empty. */
  lemma NamedColumnsDistinct(headers: seq<string>, columns: seq<string>)
    requires NamedColumns(headers, columns)
    ensures Distinct(columns)
    ensures forall j :: 0 <= j < |columns| ==> columns[j] != ""
  {
    forall i, j | 0 <= i < j < |columns| ensures columns[i] != columns[j] {
      FreshNameIsNew(columns[j], Proposed(headers[j], j), columns[..j]);
      assert columns[i] in columns[..j];
    }
    forall j | 0 <= j < |columns| ensures columns[j] != "" {
      FreshNameIsNew(columns[j], Proposed(headers[j], j), columns[..j]);
    }
  }

  /** A non-blank header that collides with no earlier name is kept verbatim;
      a blank one is named `Column<i+1>` unless that name is already taken. */
  lemma NamedColumnsKeepHeaders(headers: seq<string>, columns: seq<string>, i: nat)
    requires NamedColumns(headers, columns) && i < |headers|
    ensures !IsBlank(headers[i]) && headers[i] !in columns[..i] ==> columns[i] == headers[i]
    ensures IsBlank(headers[i]) && "Column" + NatToString(i + 1) !in columns[..i] ==>
      columns[i] == "Column" + NatToString(i + 1)
  {
  }

  /** Repeated headers get suffixes one after another: `a, a, a` gives
      `a, a_1, a_2`. */
  lemma RepeatedHeaderExample(columns: seq<string>)
    requires NamedColumns(["a", "a", "a"], columns)
    ensures columns == ["a", "a_1", "a_2"]
  {
    assert "a"[0] == 'a' && !IsBlank("a");
    assert Proposed("a", 0) == "a" && Proposed("a", 1) == "a" && Proposed("a", 2) == "a";
    assert columns[..0] == [];
    assert columns[0] == "a";
    assert columns[..1] == ["a"];
    assert FreshName(columns[1], "a", ["a"]);
    var k1: nat :| k1 >= 1 && columns[1] == Suffixed("a", k1) && columns[1] !in ["a"]
      && forall j: nat :: 1 <= j < k1 ==> Suffixed("a", j) in ["a"];
    assert Suffixed("a", 1) == "a_1" && Suffixed("a", 2) == "a_2";
    assert k1 == 1;
    assert columns[1] == "a_1";
    assert columns[..2] == ["a", "a_1"];
    assert FreshName(columns[2], "a", ["a", "a_1"]);
    var k2: nat :| k2 >= 1 && columns[2] == Suffixed("a", k2) && columns[2] !in ["a", "a_1"]
      && forall j: nat :: 1 <= j < k2 ==> Suffixed("a", j) in ["a", "a_1"];
    assert k2 == 2;
    assert columns[2] == "a_2";
  }

  // ---------------------------------------------------------------
  // Data rows
  // ---------------------------------------------------------------

  /** The header fields: those of the first record, none when the input is
      empty or the first `ReadFields()` gave null. */
  function HeaderFields(records: seq<Record>): seq<string>
  {
    if records != [] && records[0].Some? then records[0].value else []
  }

  /** The records after the header. */
  function DataPart(records: seq<Record>): seq<Record>
  {
    if records == [] then [] else records[1..]
  }

  /** The non-null records, in order (`if (fields == null) continue;`). */
  function DataRecords(rs: seq<Record>): (r: seq<seq<string>>)
    ensures |r| <= |rs|
  {
    if rs == [] then [] else (if rs[0].Some? then [rs[0].value] else []) + DataRecords(rs[1..])
  }

  /** Exactly the fields of the non-null records become rows, and without a
      null record every record does, in order. */
  lemma {:induction false} DataRecordsSpec(rs: seq<Record>)
    ensures forall x :: x in DataRecords(rs) <==> Some(x) in rs
    ensures (forall i :: 0 <= i < |rs| ==> rs[i].Some?) ==>
      |DataRecords(rs)| == |rs| && forall i :: 0 <= i < |rs| ==> DataRecords(rs)[i] == rs[i].value
  {
    if rs != [] {
      DataRecordsSpec(rs[1..]);
      assert rs == [rs[0]] + rs[1..];
      forall x ensures x in DataRecords(rs) <==> Some(x) in rs {
        assert Some(x) in rs <==> rs[0] == Some(x) || Some(x) in rs[1..];
      }
      if forall i :: 0 <= i < |rs| ==> rs[i].Some? {
        assert forall i :: 0 <= i < |rs[1..]| ==> rs[1..][i] == rs[i + 1];
      }
    }
  }

  lemma {:induction false} DataRecordsAppend(a: seq<Record>, b: seq<Record>)
    ensures DataRecords(a + b) == DataRecords(a) + DataRecords(b)
  {
    if a == [] {
      assert a + b == b;
    } else {
      var head := if a[0].Some? then [a[0].value] else [];
      assert (a + b)[0] == a[0];
      assert (a + b)[1..] == a[1..] + b;
      assert DataRecords(a + b) == head + DataRecords(a[1..] + b);
      DataRecordsAppend(a[1..], b);
      assert DataRecords(a) == head + DataRecords(a[1..]);
    }
  }

  /** `row` is `fields` fitted to `n` columns: field i where there is one,
      "" past the end, and nothing beyond column n. */
  ghost predicate Aligned(row: seq<string>, fields: seq<string>, n: nat)
  {
    |row| == n && forall i :: 0 <= i < n ==> row[i] == (if i < |fields| then fields[i] else "")
  }

  /** The table `ParseToDataTable` builds from `records`: columns named from
      the header, and one row per non-null data record, fitted to the columns. */
  ghost predicate IsTableOf(records: seq<Record>, columns: seq<string>, rows: seq<seq<string>>)
  {
    && NamedColumns(HeaderFields(records), columns)
    && var data := DataRecords(DataPart(records));
    && |rows| == |data|
    && forall r :: 0 <= r < |rows| ==> Aligned(rows[r], data[r], |columns|)
  }

  /** A short record is padded and a long one truncated: under the header
      `a,b,c`, the record `1,2` gives `1,2,""` and `1,2,3,4` gives `1,2,3`. */
  lemma RaggedRowsExample(columns: seq<string>, rows: seq<seq<string>>)
    requires IsTableOf([Some(["a", "b", "c"]), Some(["1", "2"]), Some(["1", "2", "3", "4"])], columns, rows)
    ensures rows == [["1", "2", ""], ["1", "2", "3"]]
  {
    var records := [Some(["a", "b", "c"]), Some(["1", "2"]), Some(["1", "2", "3", "4"])];
    assert DataPart(records) == [Some(["1", "2"]), Some(["1", "2", "3", "4"])];
    var data := DataRecords(DataPart(records));
    assert data == [["1", "2"], ["1", "2", "3", "4"]];
    assert |columns| == 3;
    assert rows[0] == ["1", "2", ""];
    assert rows[1] == ["1", "2", "3"];
  }

  /** The header loop of `ParseToDataTable`: one column per header field. */
  method AddHeaderColumns(dt: DataTable, hs: seq<string>)
    requires dt.Valid() && dt.columns == [] && dt.rows == []
    modifies dt
    ensures dt.Valid() && dt.rows == []
    ensures NamedColumns(hs, dt.columns)
  {
    var i := 0;
    while i < |hs|
      invariant 0 <= i <= |hs|
      invariant dt.Valid() && dt.rows == []
      invariant NamedColumns(hs[..i], dt.columns)
    {
      var columnName := Proposed(hs[i], |dt.columns|);
      columnName := MakeUnique(columnName, dt.columns);
      FreshNameIsNew(columnName, Proposed(hs[i], i), dt.columns);
      ghost var before := dt.columns;
      dt.AddColumn(columnName);
      assert dt.columns[..i] == before;
      assert forall j :: 0 <= j < i ==> dt.columns[..j] == before[..j];
      assert hs[..i + 1][..i] == hs[..i];
      i := i + 1;
    }
    assert hs[..|hs|] == hs;
  }

  /** The cell loop of `ParseToDataTable`: one cell per column. */
  method AlignFields(fields: seq<string>, n: nat) returns (row: seq<string>)
    ensures Aligned(row, fields, n)
  {
    row := [];
    for i := 0 to n
      invariant |row| == i
      invariant forall j :: 0 <= j < i ==> row[j] == (if j < |fields| then fields[j] else "")
    {
      row := row + [if i < |fields| then fields[i] else ""];
    }
  }

  /** The data loop of `ParseToDataTable`: a row per non-null record, fitted
      to the columns. */
  method AddDataRows(dt: DataTable, rest: seq<Record>)
    requires dt.Valid() && dt.rows == []
    modifies dt
    ensures dt.Valid() && dt.columns == old(dt.columns)
    ensures var data := DataRecords(rest);
      |dt.rows| == |data| && forall r :: 0 <= r < |dt.rows| ==> Aligned(dt.rows[r], data[r], |dt.columns|)
  {
    var n := |dt.columns|;
    var k := 0;
    while k < |rest|
      invariant 0 <= k <= |rest|
      invariant dt.Valid() && dt.columns == old(dt.columns)
      invariant var data := DataRecords(rest[..k]);
        |dt.rows| == |data| && forall r :: 0 <= r < |dt.rows| ==> Aligned(dt.rows[r], data[r], n)
    {
      assert rest[..k + 1] == rest[..k] + [rest[k]];
      DataRecordsAppend(rest[..k], [rest[k]]);
      var fields := rest[k];
      if fields.Some? {
        var row := AlignFields(fields.value, n);
        dt.AddRow(row);
      }
      k := k + 1;
    }
    assert rest[..|rest|] == rest;
  }

  /** `ParseToDataTable(filePath, delimiter)` with the file given as the
      records `TextFieldParser` reads from it. */
  method ParseToDataTable(records: seq<Record>) returns (dt: DataTable)
    ensures fresh(dt) && dt.Valid()
    ensures IsTableOf(records, dt.columns, dt.rows)
  {
    dt := new DataTable();
    // Header row
    if records != [] {
      var headers := records[0];
      if headers.Some? {
        AddHeaderColumns(dt, headers.value);
      }
    }
    assert NamedColumns(HeaderFields(records), dt.columns);
    // Data rows
    AddDataRows(dt, DataPart(records));
  }
}
