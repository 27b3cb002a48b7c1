/** `SlideshowManager.parseCSV`: the text is split on line feeds and each line
    is scanned once, left to right, with a flag that every double quote flips.
    A comma seen while the flag is off ends a field; quotes are dropped; every
    field is trimmed; lines that yield fewer than two fields are discarded.
    There is no doubled-quote escape and no quoted line break. */
module Csv {
  import opened JsString

  type Row = seq<string>

  /** The variables of the per-line loop: the fields pushed so far (`result`),
      the field being accumulated (`current`) and the quote flag (`inQuotes`). */
  datatype ScanState = ScanState(fields: seq<string>, current: string, inQuotes: bool)

  const START := ScanState([], "", false)

  /** One iteration of the loop body. */
  function Step(st: ScanState, c: char): ScanState {
    if c == '"' then st.(inQuotes := !st.inQuotes)
    else if c == ',' && !st.inQuotes then ScanState(st.fields + [Trim(st.current)], "", st.inQuotes)
    else st.(current := st.current + [c])
  }

  /** The loop state after scanning all of `line`. */
  function Scan(line: string): ScanState
    decreases |line|
  {
    if |line| == 0 then START else Step(Scan(line[..|line| - 1]), line[|line| - 1])
  }

  /** The row produced for one line: the pushed fields and the trimmed rest. */
  function ParseLine(line: string): Row {
    var st := Scan(line);
    st.fields + [Trim(st.current)]
  }

  /** The scan of one line, as the source's `for` loop. */
  method ScanLine(line: string) returns (result: Row)
    ensures result == ParseLine(line)
  {
    var fields: seq<string> := [];
    var current := "";
    var inQuotes := false;
    for i := 0 to |line|
      invariant ScanState(fields, current, inQuotes) == Scan(line[..i])
    {
      var c := line[i];
      assert line[..i + 1][..i] == line[..i];
      if c == '"' {
        inQuotes := !inQuotes;
      } else if c == ',' && !inQuotes {
        fields := fields + [Trim(current)];
        current := "";
      } else {
        current := current + [c];
      }
    }
    assert line[..|line|] == line;
    result := fields + [Trim(current)];
  }

  /** Number of commas in `line` preceded by an even number of double quotes,
      i.e. the commas that act as separators. */
  function SeparatorCount(line: string): nat
    decreases |line|
  {
    if |line| == 0 then 0
    else
      var init := line[..|line| - 1];
      SeparatorCount(init) + (if line[|line| - 1] == ',' && Count(init, '"') % 2 == 0 then 1 else 0)
  }

  /** The quote flag is the parity of the quotes seen so far, and one field
      has been pushed per separator comma. */
  lemma {:induction false} ScanCounts(line: string)
    ensures Scan(line).inQuotes <==> Count(line, '"') % 2 == 1
    ensures |Scan(line).fields| == SeparatorCount(line)
    decreases |line|
  {
    if |line| > 0 {
      ScanCounts(line[..|line| - 1]);
    }
  }

  /** No pushed field and not the current field holds a double quote, and every
      pushed field is its own trim. */
  lemma {:induction false} ScanClean(line: string)
    ensures '"' !in Scan(line).current
    ensures forall k :: 0 <= k < |Scan(line).fields| ==>
              '"' !in Scan(line).fields[k] && Trim(Scan(line).fields[k]) == Scan(line).fields[k]
    decreases |line|
  {
    if |line| > 0 {
      var init := line[..|line| - 1];
      ScanClean(init);
      var st := Scan(init);
      var c := line[|line| - 1];
      if c == ',' && !st.inQuotes {
        var f := Trim(st.current);
        assert '"' !in f && Trim(f) == f by {
          TrimIdempotent(st.current);
          TrimSpec(st.current);
        }
        assert Scan(line).fields == st.fields + [f];
      }
    }
  }

  /** The field count of a line is one more than its separator count, no field
      holds a double quote, and every field is its own trim. */
  lemma ParseLineFields(line: string)
    ensures |ParseLine(line)| == 1 + SeparatorCount(line)
    ensures forall k :: 0 <= k < |ParseLine(line)| ==>
              '"' !in ParseLine(line)[k] && Trim(ParseLine(line)[k]) == ParseLine(line)[k]
  {
    ScanCounts(line);
    ScanClean(line);
    TrimIdempotent(Scan(line).current);
    TrimSpec(Scan(line).current);
  }

  function TrimEach(pieces: seq<string>): (r: seq<string>)
    ensures |r| == |pieces|
    ensures forall k :: 0 <= k < |pieces| ==> r[k] == Trim(pieces[k])
  {
    seq(|pieces|, k requires 0 <= k < |pieces| => Trim(pieces[k]))
  }

  lemma TrimEachSnoc(pieces: seq<string>, x: string)
    ensures TrimEach(pieces + [x]) == TrimEach(pieces) + [Trim(x)]
  {
  }

  /** On a line without double quotes the scan is the comma split: the pushed
      fields are the trimmed pieces before the last comma and the current field
      is the last piece. */
  lemma {:induction false} ScanQuoteFree(line: string)
    requires '"' !in line
    ensures var pieces := Split(line, ',');
            Scan(line).fields == TrimEach(pieces[..|pieces| - 1])
            && Scan(line).current == pieces[|pieces| - 1]
            && !Scan(line).inQuotes
    decreases |line|
  {
    if |line| > 0 {
      var init := line[..|line| - 1];
      var c := line[|line| - 1];
      assert '"' !in init by {
        forall k | 0 <= k < |init| ensures init[k] != '"' {
          assert init[k] == line[k];
        }
      }
      ScanQuoteFree(init);
      assert line == init + [c];
      ScanAppend(init, c);
      if c == ',' {
        QuoteFreeSeparator(init);
      } else {
        QuoteFreeOrdinary(init, c);
      }
    }
  }

  /** The separator case of `ScanQuoteFree`. */
  lemma QuoteFreeSeparator(init: string)
    requires var ps := Split(init, ',');
             Scan(init).fields == TrimEach(ps[..|ps| - 1])
             && Scan(init).current == ps[|ps| - 1]
             && !Scan(init).inQuotes
    ensures var pieces := Split(init + [','], ',');
            var st := Step(Scan(init), ',');
            st.fields == TrimEach(pieces[..|pieces| - 1])
            && st.current == pieces[|pieces| - 1]
            && !st.inQuotes
  {
    var ps := Split(init, ',');
    var n := |ps|;
    var qs := ps + [""];
    assert Split(init + [','], ',') == qs by { SplitSnocSep(init, ','); }
    assert qs[..n] == ps;
    assert ps[..n - 1] + [ps[n - 1]] == ps;
    TrimEachSnoc(ps[..n - 1], ps[n - 1]);
  }

  /** The ordinary-character case of `ScanQuoteFree`. */
  lemma QuoteFreeOrdinary(init: string, c: char)
    requires c != ',' && c != '"'
    requires var ps := Split(init, ',');
             Scan(init).fields == TrimEach(ps[..|ps| - 1])
             && Scan(init).current == ps[|ps| - 1]
             && !Scan(init).inQuotes
    ensures var pieces := Split(init + [c], ',');
            var st := Step(Scan(init), c);
            st.fields == TrimEach(pieces[..|pieces| - 1])
            && st.current == pieces[|pieces| - 1]
            && !st.inQuotes
  {
    var ps := Split(init, ',');
    var n := |ps|;
    var qs := ps[..n - 1] + [ps[n - 1] + [c]];
    assert Split(init + [c], ',') == qs by { SplitSnoc(init, c, ','); }
    assert qs[..n - 1] == ps[..n - 1];
  }

  /** For a line without double quotes the row is exactly the comma-split
      pieces, each trimmed. */
  lemma ParseLineQuoteFree(line: string)
    requires '"' !in line
    ensures ParseLine(line) == TrimEach(Split(line, ','))
  {
    ScanQuoteFree(line);
    var pieces := Split(line, ',');
    var n := |pieces|;
    TrimEachSnoc(pieces[..n - 1], pieces[n - 1]);
    assert pieces[..n - 1] + [pieces[n - 1]] == pieces;
  }

  /** Scanning one more character is one more step of the loop. */
  lemma ScanAppend(x: string, c: char)
    ensures Scan(x + [c]) == Step(Scan(x), c)
  {
    assert (x + [c])[..|x|] == x;
  }

  /** Text without double quotes (and, outside quotes, without commas) is
      copied verbatim into the current field. */
  lemma {:induction false} ScanVerbatim(x: string, y: string)
    requires '"' !in y
    requires !Scan(x).inQuotes ==> ',' !in y
    ensures Scan(x + y) == Scan(x).(current := Scan(x).current + y)
    decreases |y|
  {
    if |y| == 0 {
      assert x + y == x;
    } else {
      var y' := y[..|y| - 1];
      var c := y[|y| - 1];
      assert c in y;
      assert '"' !in y' && (!Scan(x).inQuotes ==> ',' !in y') by {
        forall i | 0 <= i < |y'| ensures y'[i] == y[i] {}
      }
      ScanVerbatim(x, y');
      assert x + y == (x + y') + [c];
      ScanAppend(x + y', c);
      assert Scan(x).current + y' + [c] == Scan(x).current + y;
    }
  }

  /** A quoted section, commas included, is copied into the current field
      without its quotes, and leaves the quote flag as it found it. */
  lemma QuotedSection(x: string, body: string)
    requires !Scan(x).inQuotes
    requires '"' !in body
    ensures Scan(x + ['"'] + body + ['"']) == Scan(x).(current := Scan(x).current + body)
  {
    var x1 := x + ['"'];
    ScanAppend(x, '"');
    ScanVerbatim(x1, body);
    ScanAppend(x1 + body, '"');
  }

  /** A character that is neither a quote, a comma nor whitespace. */
  predicate Ordinary(x: char) {
    x != '"' && x != ',' && !IsSpace(x)
  }

  /** The example line below, after its first character. */
  lemma ExampleStart(a: char)
    requires a != '"' && a != ','
    ensures Scan([a]) == ScanState([], [a], false)
  {
    ScanAppend([], a);
    assert [] + [a] == [a];
  }

  /** The example line below, up to its first separator. */
  lemma ExampleFirstField(a: char)
    requires a != '"' && a != ',' && Trim([a]) == [a]
    ensures Scan([a, ',']) == ScanState([[a]], [], false)
  {
    ExampleStart(a);
    ScanAppend([a], ',');
    assert [a] + [','] == [a, ','];
  }

  /** The example line below, up to the end of its quoted section. */
  lemma ExampleQuotedField(a: char, b: char, c: char)
    requires a != '"' && a != ',' && Trim([a]) == [a]
    requires b != '"' && c != '"'
    ensures Scan([a, ',', '"', b, ',', c, '"']) == ScanState([[a]], [b, ',', c], false)
  {
    ExampleFirstField(a);
    QuotedSection([a, ','], [b, ',', c]);
    assert [a, ','] + ['"'] + [b, ',', c] + ['"'] == [a, ',', '"', b, ',', c, '"'];
  }

  /** The example line below, up to its second separator. */
  lemma ExampleSecondField(a: char, b: char, c: char)
    requires a != '"' && a != ',' && Trim([a]) == [a]
    requires b != '"' && c != '"' && Trim([b, ',', c]) == [b, ',', c]
    ensures Scan([a, ',', '"', b, ',', c, '"', ',']) == ScanState([[a], [b, ',', c]], [], false)
  {
    var x := [a, ',', '"', b, ',', c, '"'];
    ExampleQuotedField(a, b, c);
    ScanAppend(x, ',');
    assert x + [','] == [a, ',', '"', b, ',', c, '"', ','];
  }

  /** The example line below, once its fields' trims are known. */
  lemma ExampleLine(a: char, b: char, c: char, d: char)
    requires a != '"' && a != ',' && Trim([a]) == [a]
    requires b != '"' && c != '"' && Trim([b, ',', c]) == [b, ',', c]
    requires d != '"' && d != ',' && Trim([d]) == [d]
    ensures ParseLine([a, ',', '"', b, ',', c, '"', ',', d]) == [[a], [b, ',', c], [d]]
  {
    var x := [a, ',', '"', b, ',', c, '"', ','];
    ExampleSecondField(a, b, c);
    ScanAppend(x, d);
    assert x + [d] == [a, ',', '"', b, ',', c, '"', ',', d];
  }

  /** A quoted comma is not a separator: `a,"b,c",d` gives the three fields
      `a`, `b,c` and `d` (for any ordinary characters in place of a, b, c, d). */
  lemma QuotedCommaExample(a: char, b: char, c: char, d: char)
    requires Ordinary(a) && Ordinary(b) && Ordinary(c) && Ordinary(d)
    ensures ParseLine([a, ',', '"', b, ',', c, '"', ',', d]) == [[a], [b, ',', c], [d]]
  {
    assert Trim([a]) == [a] by { TrimUnchanged([a]); }
    assert Trim([b, ',', c]) == [b, ',', c] by { TrimUnchanged([b, ',', c]); }
    assert Trim([d]) == [d] by { TrimUnchanged([d]); }
    ExampleLine(a, b, c, d);
  }

  /** `lines.map(parseLine)`. */
  function ParsedLines(lines: seq<string>): (rows: seq<Row>)
    ensures |rows| == |lines|
    ensures forall k :: 0 <= k < |lines| ==> rows[k] == ParseLine(lines[k])
  {
    seq(|lines|, k requires 0 <= k < |lines| => ParseLine(lines[k]))
  }

  lemma ParsedLinesSnoc(lines: seq<string>, k: nat)
    requires k < |lines|
    ensures ParsedLines(lines[..k + 1]) == ParsedLines(lines[..k]) + [ParseLine(lines[k])]
  {
    assert lines[..k + 1] == lines[..k] + [lines[k]];
  }

  /** `rows.filter(row => row.length > 1)`. */
  function KeepWide(rows: seq<Row>): seq<Row>
    decreases |rows|
  {
    if |rows| == 0 then []
    else
      var row := rows[|rows| - 1];
      KeepWide(rows[..|rows| - 1]) + (if |row| > 1 then [row] else [])
  }

  /** `csvText.split('\n')`. */
  function Lines(csvText: string): seq<string> {
    Split(csvText, '\n')
  }

  /** The value `parseCSV(csvText)` returns. */
  function CsvRows(csvText: string): seq<Row> {
    KeepWide(ParsedLines(Lines(csvText)))
  }

  /** `parseCSV`: the lines are mapped through the per-line scan and filtered. */
  method ParseCsv(csvText: string) returns (rows: seq<Row>)
    ensures rows == CsvRows(csvText)
  {
    var lines := Lines(csvText);
    var parsed: seq<Row> := [];
    for k := 0 to |lines|
      invariant parsed == ParsedLines(lines[..k])
    {
      var row := ScanLine(lines[k]);
      ParsedLinesSnoc(lines, k);
      parsed := parsed + [row];
    }
    assert lines[..|lines|] == lines;
    rows := [];
    for k := 0 to |parsed|
      invariant rows == KeepWide(parsed[..k])
    {
      assert parsed[..k + 1][..k] == parsed[..k];
      if |parsed[k]| > 1 {
        rows := rows + [parsed[k]];
      }
    }
    assert parsed[..|parsed|] == parsed;
  }

  /** The filter keeps exactly the rows with more than one field. */
  lemma {:induction false} KeepWideMembers(rows: seq<Row>, row: Row)
    ensures row in KeepWide(rows) <==> row in rows && |row| > 1
    decreases |rows|
  {
    if |rows| > 0 {
      var init := rows[..|rows| - 1];
      KeepWideMembers(init, row);
      assert rows == init + [rows[|rows| - 1]];
    }
  }

  /** The filter keeps the order of the rows and treats each row on its own. */
  lemma {:induction false} KeepWideAppend(a: seq<Row>, b: seq<Row>)
    ensures KeepWide(a + b) == KeepWide(a) + KeepWide(b)
    decreases |b|
  {
    if |b| == 0 {
      assert a + b == a;
    } else {
      var b' := b[..|b| - 1];
      KeepWideAppend(a, b');
      assert (a + b)[..|a + b| - 1] == a + b';
    }
  }

  /** `row` is the row of line `k`, and that line has a separator comma. */
  ghost predicate RowOfLine(lines: seq<string>, k: int, row: Row) {
    0 <= k < |lines| && SeparatorCount(lines[k]) > 0 && row == ParseLine(lines[k])
  }

  /** Every row `parseCSV` returns comes from one line with a separator comma,
      and each such line's row is returned. */
  lemma CsvRowsMembers(csvText: string, row: Row)
    ensures row in CsvRows(csvText) <==> exists k :: RowOfLine(Lines(csvText), k, row)
  {
    var lines := Lines(csvText);
    var parsed := ParsedLines(lines);
    assert row in CsvRows(csvText) <==> row in parsed && |row| > 1 by {
      KeepWideMembers(parsed, row);
    }
    assert row in parsed && |row| > 1 ==> exists k :: RowOfLine(lines, k, row) by {
      if row in parsed && |row| > 1 {
        var k :| 0 <= k < |parsed| && parsed[k] == row;
        ParseLineFields(lines[k]);
        assert RowOfLine(lines, k, row);
      }
    }
    assert (exists k :: RowOfLine(lines, k, row)) ==> row in parsed && |row| > 1 by {
      if exists k :: RowOfLine(lines, k, row) {
        var k :| RowOfLine(lines, k, row);
        ParseLineFields(lines[k]);
        assert parsed[k] == row;
      }
    }
  }

  /** Every returned row has at least two fields, none holding a double quote
      or surrounding whitespace. */
  lemma CsvRowsShape(csvText: string)
    ensures forall row :: row in CsvRows(csvText) ==>
              |row| >= 2 && forall k :: 0 <= k < |row| ==> '"' !in row[k] && Trim(row[k]) == row[k]
  {
    forall row | row in CsvRows(csvText)
      ensures |row| >= 2 && forall k :: 0 <= k < |row| ==> '"' !in row[k] && Trim(row[k]) == row[k]
    {
      CsvRowsMembers(csvText, row);
      var k :| RowOfLine(Lines(csvText), k, row);
      var lines := Lines(csvText);
      ParseLineFields(lines[k]);
    }
  }
}
