/**
 * `DelimitedWriter`: writes a table as delimited text, one header line and
 * one line per row, with minimal quoting of fields.
 *
 * The stream is modelled by the lines handed to `WriteLine` and by the text
 * they produce, each line followed by the line terminator `newline`.
 */
module DelimitedWriter {
  import opened Basics
  import opened Strings
  import opened Tables

  // ---------------------------------------------------------------
  // Field escaping
  // ---------------------------------------------------------------

  /** A field is quoted when it holds the delimiter, a quote, LF or CR. */
  predicate MustQuote(value: string, delimiter: char)
  {
    delimiter in value || '"' in value || '\n' in value || '\r' in value
  }

  /** `value.Replace("\"", "\"\"")`: every quote doubled. */
  function DoubleQuotes(s: string): (r: string)
    ensures |r| == |s| + Count(s, '"')
    ensures forall c :: c != '"' ==> Count(r, c) == Count(s, c)
  {
    if s == [] then []
    else
      var head := if s[0] == '"' then "\"\"" else [s[0]];
      var rest := DoubleQuotes(s[1..]);
      forall c | c != '"' ensures Count(head + rest, c) == Count(s, c) {
        CountAppend(head, rest, c);
      }
      head + rest
  }

  /** Reads doubled quotes back as single ones: the decoding half of the
      quoting rule, used to show that escaping loses nothing. */
  function UndoubleQuotes(s: string): string
    decreases |s|
  {
    if s == [] then []
    else if |s| >= 2 && s[0] == '"' && s[1] == '"' then "\"" + UndoubleQuotes(s[2..])
    else [s[0]] + UndoubleQuotes(s[1..])
  }

  lemma {:induction false} UndoubleDoubleQuotes(s: string)
    ensures UndoubleQuotes(DoubleQuotes(s)) == s
  {
    if s != [] {
      var rest := DoubleQuotes(s[1..]);
      UndoubleDoubleQuotes(s[1..]);
      if s[0] == '"' {
        var t := "\"\"" + rest;
        assert DoubleQuotes(s) == t;
        assert t[2..] == rest;
      } else {
        var t := [s[0]] + rest;
        assert DoubleQuotes(s) == t;
        assert t[1..] == rest;
      }
      assert s == [s[0]] + s[1..];
    }
  }

  /** `EscapeField(value, delimiter)`. */
  function EscapeField(value: string, delimiter: char): (r: string)
    ensures !MustQuote(value, delimiter) ==> r == value
    ensures MustQuote(value, delimiter) <==> (|r| >= 2 && r[0] == '"' && r[|r| - 1] == '"')
    ensures MustQuote(value, delimiter) ==>
      |r| == |value| + 2 + Count(value, '"') && r[1..|r| - 1] == DoubleQuotes(value)
  {
    if MustQuote(value, delimiter) then
      var r := "\"" + DoubleQuotes(value) + "\"";
      assert r[1..|r| - 1] == DoubleQuotes(value);
      r
    else
      assert |value| >= 1 ==> value[0] != '"' by {
        if |value| >= 1 { assert value[0] in value; }
      }
      value
  }

  /** Reads an escaped field back (the inverse of the quoting rule). */
  function UnescapeField(r: string): string
  {
    if |r| >= 2 && r[0] == '"' && r[|r| - 1] == '"' then UndoubleQuotes(r[1..|r| - 1]) else r
  }

  /** Escaping is lossless: the escaped text determines the value. */
  lemma EscapeFieldRoundTrip(value: string, delimiter: char)
    ensures UnescapeField(EscapeField(value, delimiter)) == value
  {
    if MustQuote(value, delimiter) {
      UndoubleDoubleQuotes(value);
    }
  }

  // ---------------------------------------------------------------
  // Lines
  // ---------------------------------------------------------------

  /** `string.Join(separator, fields)`. */
  function Join(fields: seq<string>, separator: char): (r: string)
    ensures |fields| == 1 ==> r == fields[0]
    decreases |fields|
  {
    if |fields| == 0 then ""
    else if |fields| == 1 then fields[0]
    else fields[0] + [separator] + Join(fields[1..], separator)
  }

  /** The characters of all fields together. */
  function TotalLength(fields: seq<string>): nat
  {
    if fields == [] then 0 else |fields[0]| + TotalLength(fields[1..])
  }

  /** The occurrences of `c` in all fields together. */
  function TotalCount(fields: seq<string>, c: char): nat
  {
    if fields == [] then 0 else Count(fields[0], c) + TotalCount(fields[1..], c)
  }

  /** A joined line starts with the first field, holds every field's
      characters plus one separator between each two neighbours, and so
      has exactly `|fields| - 1` separators besides those inside fields. */
  lemma {:induction false} JoinShape(fields: seq<string>, separator: char)
    requires |fields| >= 1
    ensures |Join(fields, separator)| == TotalLength(fields) + |fields| - 1
    ensures Count(Join(fields, separator), separator) == TotalCount(fields, separator) + |fields| - 1
    ensures Join(fields, separator)[..|fields[0]|] == fields[0]
    decreases |fields|
  {
    var f := fields[0];
    if |fields| == 1 {
      assert fields[1..] == [];
    } else {
      var rest := Join(fields[1..], separator);
      JoinShape(fields[1..], separator);
      assert Join(fields, separator) == (f + [separator]) + rest;
      CountAppend(f + [separator], rest, separator);
      CountAppend(f, [separator], separator);
      assert Count([separator], separator) == 1 by {
        assert [separator][1..] == [];
      }
      assert ((f + [separator]) + rest)[..|f|] == f;
    }
  }

  /** First position of `c` in `s`. */
  function IndexOfChar(s: string, c: char): (k: nat)
    requires c in s
    ensures k < |s| && s[k] == c && forall j :: 0 <= j < k ==> s[j] != c
  {
    if s[0] == c then 0 else 1 + IndexOfChar(s[1..], c)
  }

  /** Cuts a string at every separator (reference inverse of `Join`). */
  function Split(s: string, separator: char): seq<string>
    decreases |s|
  {
    if separator !in s then [s]
    else
      var k := IndexOfChar(s, separator);
      [s[..k]] + Split(s[k + 1..], separator)
  }

  /** Joining fields that hold no separator can be undone by cutting at the
      separators. */
  lemma {:induction false} SplitJoin(fields: seq<string>, separator: char)
    requires |fields| >= 1
    requires forall i :: 0 <= i < |fields| ==> separator !in fields[i]
    ensures Split(Join(fields, separator), separator) == fields
    decreases |fields|
  {
    if |fields| > 1 {
      var f := fields[0];
      var rest := Join(fields[1..], separator);
      var s := f + [separator] + rest;
      assert Join(fields, separator) == s;
      assert s[|f|] == separator;
      var k := IndexOfChar(s, separator);
      assert forall j :: 0 <= j < |f| ==> s[j] == f[j];
      assert k == |f|;
      assert s[..k] == f;
      assert s[k + 1..] == rest;
      SplitJoin(fields[1..], separator);
      assert fields == [f] + fields[1..];
    }
  }

  /** Every field escaped, in order. */
  function EscapeAll(fields: seq<string>, delimiter: char): (r: seq<string>)
    ensures |r| == |fields|
  {
    seq(|fields|, i requires 0 <= i < |fields| => EscapeField(fields[i], delimiter))
  }

  /** One output line: the fields escaped and joined by the delimiter. */
  function EscapedLine(fields: seq<string>, delimiter: char): string
  {
    Join(EscapeAll(fields, delimiter), delimiter)
  }

  /** A line whose fields need no quoting is cut back into those fields at
      the delimiter. (A quoted field that holds the delimiter would be cut
      apart: the line is not split by `Split` alone.) */
  lemma EscapedLineSplit(fields: seq<string>, delimiter: char)
    requires |fields| >= 1
    requires forall i :: 0 <= i < |fields| ==> !MustQuote(fields[i], delimiter)
    ensures Split(EscapedLine(fields, delimiter), delimiter) == fields
  {
    assert EscapeAll(fields, delimiter) == fields;
    SplitJoin(fields, delimiter);
  }

  /** The text of `WriteLine` calls: each line followed by the terminator. */
  function Terminated(lines: seq<string>, newline: string): string
  {
    if lines == [] then "" else lines[0] + newline + Terminated(lines[1..], newline)
  }

  lemma {:induction false} TerminatedAppend(lines: seq<string>, line: string, newline: string)
    ensures Terminated(lines + [line], newline) == Terminated(lines, newline) + line + newline
  {
    if lines == [] {
      assert [] + [line] == [line];
      assert Terminated([line], newline) == line + newline + Terminated([], newline);
    } else {
      assert (lines + [line])[1..] == lines[1..] + [line];
      TerminatedAppend(lines[1..], line, newline);
    }
  }

  // ---------------------------------------------------------------
  // Save
  // ---------------------------------------------------------------

  /** What a successful `Save` writes: the lines, and the file text. */
  datatype Written = Written(lines: seq<string>, text: string)

  /** `Save(table, path, delimiter, encoding)`; the encoding only affects
      the bytes of the text. */
  method Save(table: DataTable?, path: string, delimiter: char, newline: string)
    returns (r: Result<Written, ArgumentError>)
    requires table != null ==> table.Valid()
    ensures table == null ==> r == Failure(ArgumentNull("table"))
    ensures table != null && IsBlank(path) ==> r == Failure(ArgumentInvalid("path", "Path is required."))
    ensures table != null && !IsBlank(path) ==>
      && r.Success?
      && |r.value.lines| == |table.rows| + 1
      && r.value.lines[0] == EscapedLine(table.columns, delimiter)
      && (forall i :: 0 <= i < |table.rows| ==> r.value.lines[i + 1] == EscapedLine(table.rows[i], delimiter))
      && r.value.text == Terminated(r.value.lines, newline)
  {
    if table == null {
      return Failure(ArgumentNull("table"));
    }
    if IsBlank(path) {
      return Failure(ArgumentInvalid("path", "Path is required."));
    }

    var lines: seq<string> := [];
    var text := "";

    // Header
    var header := EscapedLine(table.columns, delimiter);
    TerminatedAppend(lines, header, newline);
    lines, text := lines + [header], text + header + newline;

    // Rows
    for i := 0 to |table.rows|
      invariant |lines| == i + 1
      invariant lines[0] == EscapedLine(table.columns, delimiter)
      invariant forall k :: 0 <= k < i ==> lines[k + 1] == EscapedLine(table.rows[k], delimiter)
      invariant text == Terminated(lines, newline)
    {
      var line := EscapedLine(table.rows[i], delimiter);
      TerminatedAppend(lines, line, newline);
      lines, text := lines + [line], text + line + newline;
    }
    return Success(Written(lines, text));
  }
}
