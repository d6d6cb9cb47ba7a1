/** Reading the comparison file back and writing it again: exactly when the second file is
    the first. */
module ProtocolFixedPoint {
  import opened Common
  import opened CsvLine
  import opened ProtocolCsv
  import CsvFile

  // ----- splitting the file into lines undoes writing it

  predicate OneLine(s: string) {
    '\n' !in s
  }

  predicate LineSafe(l: string) {
    OneLine(l) && (l == "" || l[|l| - 1] != '\r')
  }

  lemma {:induction false} FirstLine(l: string, rest: string)
    requires LineSafe(l)
    ensures Lines(l + "\n" + rest) == [l] + Lines(rest)
  {
    var s := l + "\n" + rest;
    if l == "" {
      assert s[1..] == rest;
    } else {
      var tail := l[1..] + "\n" + rest;
      assert s[1..] == tail && s[0] == l[0];
      if |l| > 1 { assert s[1] == l[1]; }
      FirstLine(l[1..], rest);
      assert [l[0]] + l[1..] == l;
    }
  }

  lemma {:induction false} DoubleQuotesOneLine(s: string)
    requires OneLine(s)
    ensures OneLine(DoubleQuotes(s))
  {
    if s != "" {
      DoubleQuotesOneLine(s[1..]);
    }
  }

  lemma EscapeSafe(f: string)
    requires OneLine(f)
    ensures LineSafe(Escape(f))
  {
    DoubleQuotesOneLine(f);
  }

  lemma {:induction false} WriteLineSafe(fields: seq<string>)
    requires forall f | f in fields :: OneLine(f)
    ensures LineSafe(WriteLine(fields))
    ensures |fields| > 1 ==> ',' in WriteLine(fields)
  {
    if fields != [] {
      EscapeSafe(fields[0]);
      WriteLineSafe(fields[1..]);
      assert EscapeAll(fields)[1..] == EscapeAll(fields[1..]);
      if |fields| > 1 {
        var l, tail := WriteLine(fields), WriteLine(fields[1..]);
        assert l == Escape(fields[0]) + "," + tail;
        assert l[|Escape(fields[0])|] == ',';
        if tail != "" { assert l[|l| - 1] == tail[|tail| - 1]; }
      }
    }
  }

  /** Several fields per record and no LF in any of them: one line each. */
  ghost predicate LineRecords(records: seq<seq<string>>) {
    forall r | r in records :: |r| > 1 && forall f | f in r :: OneLine(f)
  }

  function WriteLines(records: seq<seq<string>>): (ls: seq<string>)
    ensures |ls| == |records| && forall i | 0 <= i < |ls| :: ls[i] == WriteLine(records[i])
  {
    seq(|records|, i requires 0 <= i < |records| => WriteLine(records[i]))
  }

  lemma WriteLinesCons(records: seq<seq<string>>)
    requires records != []
    ensures WriteLines(records) == [WriteLine(records[0])] + WriteLines(records[1..])
  {
  }

  lemma {:induction false} LinesOfRecords(records: seq<seq<string>>)
    requires LineRecords(records)
    ensures Lines(WriteRecords(records)) == WriteLines(records) + [""]
  {
    if records != [] {
      assert records[0] in records;
      WriteLineSafe(records[0]);
      FirstLine(WriteLine(records[0]), WriteRecords(records[1..]));
      LinesOfRecords(records[1..]);
      WriteLinesCons(records);
    }
  }

  lemma {:induction false} TrimKeeps(s: string, c: char)
    requires c in s && !IsSpace(c)
    ensures c in Trim(s)
  {
    if IsSpace(s[0]) {
      TrimKeeps(s[1..], c);
    } else if IsSpace(s[|s| - 1]) {
      assert s == s[..|s| - 1] + [s[|s| - 1]];
      TrimKeeps(s[..|s| - 1], c);
    }
  }

  lemma {:induction false} KeepsRecordLines(records: seq<seq<string>>)
    requires LineRecords(records)
    ensures NonBlank(WriteLines(records) + [""]) == WriteLines(records)
  {
    if records == [] {
      assert [""][1..] == [];
    } else {
      var ls := WriteLines(records) + [""];
      assert records[0] in records;
      WriteLineSafe(records[0]);
      TrimKeeps(ls[0], ',');
      WriteLinesCons(records);
      assert ls[1..] == WriteLines(records[1..]) + [""];
      KeepsRecordLines(records[1..]);
    }
  }

  // ----- the header finds its columns

  lemma {:induction false} IndexOfConcat(a: seq<string>, b: seq<string>, name: string)
    ensures IndexOf(a + b, name) ==
            if IndexOf(a, name) >= 0 then IndexOf(a, name)
            else if IndexOf(b, name) >= 0 then |a| + IndexOf(b, name) else -1
  {
    if a == [] {
      assert a + b == b;
    } else {
      assert (a + b)[1..] == a[1..] + b;
      IndexOfConcat(a[1..], b, name);
    }
  }

  function HeaderIndex(name: string): int {
    if IndexOf(KEY_COLUMNS, name) >= 0 then IndexOf(KEY_COLUMNS, name)
    else if IndexOf(LATENCY_COLUMNS, name) >= 0 then 2 + IndexOf(LATENCY_COLUMNS, name)
    else if IndexOf(RATE_COLUMNS, name) >= 0 then 7 + IndexOf(RATE_COLUMNS, name)
    else if IndexOf(PHASE_COLUMNS, name) >= 0 then 10 + IndexOf(PHASE_COLUMNS, name)
    else if IndexOf(LAST_COLUMNS, name) >= 0 then 12 + IndexOf(LAST_COLUMNS, name)
    else -1
  }

  lemma HeaderLookup(name: string)
    ensures IndexOf(HEADER, name) == HeaderIndex(name)
  {
    IndexOfConcat(KEY_COLUMNS, LATENCY_COLUMNS, name);
    IndexOfConcat(KEY_COLUMNS + LATENCY_COLUMNS, RATE_COLUMNS, name);
    IndexOfConcat(KEY_COLUMNS + LATENCY_COLUMNS + RATE_COLUMNS, PHASE_COLUMNS, name);
    IndexOfConcat(KEY_COLUMNS + LATENCY_COLUMNS + RATE_COLUMNS + PHASE_COLUMNS, LAST_COLUMNS, name);
  }

  predicate Trimmed(fields: seq<string>) {
    forall f | f in fields :: Trim(f) == f
  }

  lemma TrimmedConcat(a: seq<string>, b: seq<string>)
    requires Trimmed(a) && Trimmed(b)
    ensures Trimmed(a + b)
  {
  }

  lemma KeyColumnsTrimmed() ensures Trimmed(KEY_COLUMNS) {}
  lemma LatencyColumnsTrimmed() ensures Trimmed(LATENCY_COLUMNS) {}
  lemma RateColumnsTrimmed() ensures Trimmed(RATE_COLUMNS) {}
  lemma PhaseColumnsTrimmed() ensures Trimmed(PHASE_COLUMNS) {}
  lemma LastColumnsTrimmed() ensures Trimmed(LAST_COLUMNS) {}

  lemma HeaderTrimmed()
    ensures Trimmed(HEADER) && TrimAll(HEADER) == HEADER
  {
    KeyColumnsTrimmed();
    LatencyColumnsTrimmed();
    RateColumnsTrimmed();
    PhaseColumnsTrimmed();
    LastColumnsTrimmed();
    TrimmedConcat(KEY_COLUMNS, LATENCY_COLUMNS);
    TrimmedConcat(KEY_COLUMNS + LATENCY_COLUMNS, RATE_COLUMNS);
    TrimmedConcat(KEY_COLUMNS + LATENCY_COLUMNS + RATE_COLUMNS, PHASE_COLUMNS);
    TrimmedConcat(KEY_COLUMNS + LATENCY_COLUMNS + RATE_COLUMNS + PHASE_COLUMNS, LAST_COLUMNS);
    assert forall i | 0 <= i < |HEADER| :: HEADER[i] in HEADER;
  }

  lemma ReadFirstColumns(cells: seq<string>)
    requires |cells| == 14
    ensures Column(HEADER, cells, "service") == cells[0] && Column(HEADER, cells, "protocol") == cells[1]
    ensures Column(HEADER, cells, "p50") == cells[2] && Column(HEADER, cells, "p95") == cells[3]
    ensures Column(HEADER, cells, "p99") == cells[4] && Column(HEADER, cells, "max") == cells[5]
    ensures Column(HEADER, cells, "avg") == cells[6]
  {
    HeaderLookup("service");
    HeaderLookup("protocol");
    HeaderLookup("p50");
    HeaderLookup("p95");
    HeaderLookup("p99");
    HeaderLookup("max");
    HeaderLookup("avg");
  }

  lemma ReadRateColumns(cells: seq<string>)
    requires |cells| == 14
    ensures Column(HEADER, cells, "rps") == cells[7]
    ensures Column(HEADER, cells, "fail_rate") == cells[8] && Column(HEADER, cells, "duration_metric") == cells[9]
  {
    HeaderLookup("rps");
    HeaderLookup("fail_rate");
    HeaderLookup("duration_metric");
  }

  lemma ReadLastColumns(cells: seq<string>)
    requires |cells| == 14
    ensures Column(HEADER, cells, "waiting_p95") == cells[10] && Column(HEADER, cells, "sending_p95") == cells[11]
    ensures Column(HEADER, cells, "source_summary") == cells[13]
  {
    HeaderLookup("waiting_p95");
    HeaderLookup("sending_p95");
    HeaderLookup("source_summary");
  }

  // ----- reading back what was written

  predicate OneLineFields(fields: seq<string>) {
    forall f | f in fields :: OneLine(f)
  }

  predicate Named(r: Row) {
    r.service != "" && r.protocol != "" && r.source != ""
  }

  /** The rows the line-by-line reader can recover. */
  predicate Survives(r: Row) {
    Named(r) && OneLineFields(Fields(r.(anomaly := "")))
  }

  ghost predicate AllSurvive(rows: seq<Row>) {
    forall r | r in rows :: Survives(r)
  }

  function Unmarked(rows: seq<Row>): (u: seq<Row>)
    ensures |u| == |rows| && forall i | 0 <= i < |u| :: u[i] == rows[i].(anomaly := "")
  {
    seq(|rows|, i requires 0 <= i < |rows| => rows[i].(anomaly := ""))
  }

  lemma RowReadsBack(r: Row, fallback: string)
    requires Named(r)
    ensures ReadRow(HEADER, Cells(WriteLine(Fields(r)), false), fallback) == Some(r.(anomaly := ""))
  {
    LineRoundTrip(Fields(r));
    ReadFirstColumns(Fields(r));
    ReadRateColumns(Fields(r));
    ReadLastColumns(Fields(r));
  }

  lemma {:induction false} PresentAll<T>(options: seq<Option<T>>, values: seq<T>)
    requires |options| == |values| && forall i | 0 <= i < |values| :: options[i] == Some(values[i])
    ensures Present(options) == values
  {
    if values != [] {
      var n := |values| - 1;
      PresentAll(options[..n], values[..n]);
      assert values == values[..n] + [values[n]];
    }
  }

  lemma RowsReadBack(rows: seq<Row>, fallback: string)
    requires forall r | r in rows :: Named(r)
    ensures ReadRows(HEADER, WriteLines(FieldRows(rows)), fallback) == Unmarked(rows)
  {
    var all := ReadAll(HEADER, WriteLines(FieldRows(rows)), fallback);
    forall i | 0 <= i < |rows| ensures all[i] == Some(Unmarked(rows)[i]) {
      assert rows[i] in rows;
      RowReadsBack(rows[i], fallback);
    }
    PresentAll(all, Unmarked(rows));
  }

  lemma HeaderReadsBack()
    ensures TrimAll(Cells(WriteLine(HEADER), false)) == HEADER
    ensures IndexOf(HEADER, "service") >= 0 && IndexOf(HEADER, "protocol") >= 0 && IndexOf(HEADER, "p95") >= 0
  {
    LineRoundTrip(HEADER);
    HeaderTrimmed();
    HeaderLookup("service");
    HeaderLookup("protocol");
    HeaderLookup("p95");
  }

  lemma HeaderOneLine()
    ensures OneLineFields(HEADER)
  {
    HeaderIsPlain();
  }

  lemma TableLines(header: seq<string>, rows: seq<Row>)
    requires |header| > 1 && OneLineFields(header) && forall r | r in rows :: OneLineFields(Fields(r))
    ensures NonBlank(Lines(WriteTable(header, rows))) == [WriteLine(header)] + WriteLines(FieldRows(rows))
  {
    var records := [header] + FieldRows(rows);
    forall i | 0 <= i < |rows| ensures |FieldRows(rows)[i]| > 1 && OneLineFields(FieldRows(rows)[i]) {
      assert rows[i] in rows;
    }
    assert LineRecords(records);
    LinesOfRecords(records);
    KeepsRecordLines(records);
    assert WriteLines(records) == [WriteLine(header)] + WriteLines(FieldRows(rows));
  }

  /** Rows with service, protocol and source, and no LF in a field, are read back as they
      were, whatever their anomaly column says. */
  lemma FileReadsBack(rows: seq<Row>, fallback: string)
    requires rows != []
    requires forall r | r in rows :: Named(r) && OneLineFields(Fields(r))
    ensures ExtractRows(WriteFile(rows), fallback) == Unmarked(rows)
  {
    HeaderOneLine();
    TableLines(HEADER, rows);
    HeaderReadsBack();
    RowsReadBack(rows, fallback);
    ExtractsBelow(WriteFile(rows), WriteLine(HEADER), WriteLines(FieldRows(rows)), fallback);
  }

  /** Below a line that reads as the header every line is read as a row. */
  lemma ExtractsBelow(raw: string, first: string, rest: seq<string>, fallback: string)
    requires NonBlank(Lines(raw)) == [first] + rest && rest != [] && TrimAll(Cells(first, false)) == HEADER
    requires IndexOf(HEADER, "service") >= 0 && IndexOf(HEADER, "protocol") >= 0 && IndexOf(HEADER, "p95") >= 0
    ensures ExtractRows(raw, fallback) == ReadRows(HEADER, rest, fallback)
  {
    assert ([first] + rest)[1..] == rest;
  }

  // ----- what the reader delivers always survives

  lemma PrefixOneLine(cur: string, cells: seq<string>)
    requires cells != [] && OneLine(cur) && OneLineFields(cells)
    ensures OneLineFields(Prefix(cur, cells))
  {
    assert OneLine(cells[0]);
  }

  lemma {:induction false} CellsOneLine(s: string, quoted: bool)
    requires OneLine(s)
    ensures OneLineFields(Cells(s, quoted))
  {
    if s != "" {
      CellsOneLine(s[1..], true);
      CellsOneLine(s[1..], false);
      if |s| > 1 {
        CellsOneLine(s[2..], true);
        PrefixOneLine("\"", Cells(s[2..], true));
      }
      PrefixOneLine([s[0]], Cells(s[1..], quoted));
    }
  }

  lemma ReadRowSurvives(header: seq<string>, cells: seq<string>, fallback: string)
    requires OneLineFields(cells) && fallback != "" && OneLine(fallback)
    ensures var r := ReadRow(header, cells, fallback); r.Some? ==> Survives(r.value) && r.value.anomaly == ""
  {
  }

  lemma {:induction false} PresentCovers<T>(options: seq<Option<T>>)
    ensures forall v | v in Present(options) :: Some(v) in options
  {
    if options != [] {
      PresentCovers(options[..|options| - 1]);
    }
  }

  lemma ReadRowsSurvive(header: seq<string>, lines: seq<string>, fallback: string)
    requires (forall l | l in lines :: OneLine(l)) && fallback != "" && OneLine(fallback)
    ensures AllSurvive(ReadRows(header, lines, fallback))
  {
    var all := ReadAll(header, lines, fallback);
    PresentCovers(all);
    forall r | r in Present(all) ensures Survives(r) {
      var i :| 0 <= i < |all| && all[i] == Some(r);
      CellsOneLine(lines[i], false);
      ReadRowSurvives(header, Cells(lines[i], false), fallback);
    }
  }

  lemma ExtractedRowsSurvive(raw: string, fallback: string)
    requires fallback != "" && OneLine(fallback)
    ensures AllSurvive(ExtractRows(raw, fallback))
  {
    var lines := NonBlank(Lines(raw));
    assert forall l | l in Lines(raw) :: OneLine(l);
    if |lines| >= 2 {
      assert forall l | l in lines[1..] :: l in lines;
      ReadRowsSurvive(TrimAll(Cells(lines[0], false)), lines[1..], fallback);
    }
  }

  // ----- the fixed point

  lemma SurvivalIgnoresAnomaly(a: Row, b: Row)
    requires a.(anomaly := "") == b.(anomaly := "")
    ensures Survives(a) <==> Survives(b)
  {
    assert a.service == b.service && a.protocol == b.protocol && a.source == b.source;
  }

  lemma AllSurviveIgnoresAnomaly(a: seq<Row>, b: seq<Row>)
    requires |a| == |b| && forall i | 0 <= i < |a| :: a[i].(anomaly := "") == b[i].(anomaly := "")
    ensures AllSurvive(a) <==> AllSurvive(b)
  {
    forall i | 0 <= i < |a| ensures a[i] in a && b[i] in b && (Survives(a[i]) <==> Survives(b[i])) {
      SurvivalIgnoresAnomaly(a[i], b[i]);
    }
  }

  lemma MarkKeepsSurvivors(rows: seq<Row>, number: Number, threshold: real)
    ensures AllSurvive(Mark(rows, number, threshold)) <==> AllSurvive(rows)
    ensures Unmarked(Mark(rows, number, threshold)) == Unmarked(rows)
  {
    AllSurviveIgnoresAnomaly(Mark(rows, number, threshold), rows);
  }

  lemma SurvivorFields(r: Row)
    requires Survives(r) && OneLine(r.anomaly)
    ensures OneLineFields(Fields(r))
  {
    var f, g := Fields(r), Fields(r.(anomaly := ""));
    forall i | 0 <= i < |f| ensures OneLine(f[i]) {
      assert g[i] in g;
    }
  }

  /** Extraction from its own file finds the same rows again, up to the anomaly column. */
  lemma ReextractionRecovers(rows: seq<Row>, fallback: string, number: Number, threshold: real)
    requires rows != [] && AllSurvive(rows)
    ensures ExtractRows(WriteFile(Mark(rows, number, threshold)), fallback) == Unmarked(rows)
  {
    var marked := Mark(rows, number, threshold);
    MarkKeepsSurvivors(rows, number, threshold);
    forall r | r in marked ensures OneLineFields(Fields(r)) {
      SurvivorFields(r);
    }
    FileReadsBack(marked, fallback);
  }

  /** Re-running extraction from its own file reproduces that file, anomaly column included,
      exactly when every row has a service, a protocol and a source and no field holds a line
      feed. */
  lemma FixedPoint(rows: seq<Row>, fallback: string, number: Number, threshold: real)
    requires rows != [] && fallback != "" && OneLine(fallback)
    ensures var file := WriteFile(Mark(rows, number, threshold));
            Rerun(file, fallback, number, threshold) == Some(file) <==> AllSurvive(rows)
  {
    var marked := Mark(rows, number, threshold);
    var file := WriteFile(marked);
    var again := ExtractRows(file, fallback);
    if AllSurvive(rows) {
      ReextractionRecovers(rows, fallback, number, threshold);
      MarkAgain(rows, again, number, threshold);
    }
    if Rerun(file, fallback, number, threshold) == Some(file) {
      var remarked := Mark(again, number, threshold);
      CsvFile.WriteTableInjective(HEADER, marked, remarked);
      ExtractedRowsSurvive(file, fallback);
      MarkKeepsSurvivors(again, number, threshold);
      MarkKeepsSurvivors(rows, number, threshold);
    }
  }

  /** A file without rows is left alone: the run exits before it writes. */
  lemma HeaderOnlyIsLeft(fallback: string, number: Number, threshold: real)
    ensures Rerun(WriteFile([]), fallback, number, threshold) == None
  {
    HeaderOneLine();
    TableLines(HEADER, []);
    NoRowsWithoutColumns(WriteFile([]), fallback);
  }
}
