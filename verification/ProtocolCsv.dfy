/** The whole-file behaviour of scripts/perf/extract-protocol-matrix.js: writing the comparison
    table, reading it back line by line, and recomputing the anomaly column. */
module ProtocolCsv {
  import opened Common
  import opened CsvLine

  datatype Row = Row(service: string, protocol: string, p50: string, p95: string, p99: string, max: string, avg: string,
                     rps: string, failRate: string, durationMetric: string, waitingP95: string, sendingP95: string,
                     anomaly: string, source: string)

  function Fields(r: Row): seq<string> {
    [r.service, r.protocol, r.p50, r.p95, r.p99, r.max, r.avg, r.rps, r.failRate, r.durationMetric,
     r.waitingP95, r.sendingP95, r.anomaly, r.source]
  }

  const KEY_COLUMNS: seq<string> := ["service", "protocol"]
  const LATENCY_COLUMNS: seq<string> := ["p50", "p95", "p99", "max", "avg"]
  const RATE_COLUMNS: seq<string> := ["rps", "fail_rate", "duration_metric"]
  const PHASE_COLUMNS: seq<string> := ["waiting_p95", "sending_p95"]
  const LAST_COLUMNS: seq<string> := ["http2_collapse_anomaly", "source_summary"]
  const HEADER: seq<string> := KEY_COLUMNS + LATENCY_COLUMNS + RATE_COLUMNS + PHASE_COLUMNS + LAST_COLUMNS

  // ----- the anomaly column

  /** The number a p95 cell holds, if any: the text-to-number conversion is a parameter. */
  type Number = string -> Option<real>

  predicate Matches(r: Row, service: string, http2: bool) {
    r.service == service && (if http2 then r.protocol == "http2" else r.protocol == "http1.1" || r.protocol == "http1")
  }

  /** The p95 of the last row of a service for HTTP/2, or for HTTP/1. */
  function LastP95(rows: seq<Row>, service: string, http2: bool, number: Number): Option<real> {
    if rows == [] then None
    else
      var r := rows[|rows| - 1];
      if Matches(r, service, http2) then number(r.p95)
      else LastP95(rows[..|rows| - 1], service, http2, number)
  }

  /** It is the p95 of the last matching row: a later row overrides an earlier one, even with
      a cell that holds no number. */
  lemma {:induction false} LastP95Meaning(rows: seq<Row>, service: string, http2: bool, number: Number, i: int)
    requires -1 <= i < |rows| && (i >= 0 ==> Matches(rows[i], service, http2))
    requires forall k | i < k < |rows| :: !Matches(rows[k], service, http2)
    ensures LastP95(rows, service, http2, number) == if i >= 0 then number(rows[i].p95) else None
  {
    if rows != [] && i < |rows| - 1 {
      assert !Matches(rows[|rows| - 1], service, http2);
      LastP95Meaning(rows[..|rows| - 1], service, http2, number, i);
    }
  }

  predicate Exceeds(h1: Option<real>, h2: Option<real>, threshold: real) {
    h1.Some? && h2.Some? && h1.value > 0.0 && h2.value > h1.value * threshold
  }

  predicate Collapsed(rows: seq<Row>, service: string, number: Number, threshold: real) {
    Exceeds(LastP95(rows, service, false, number), LastP95(rows, service, true, number), threshold)
  }

  function Mark(rows: seq<Row>, number: Number, threshold: real): (r: seq<Row>)
    ensures |r| == |rows|
    ensures forall i | 0 <= i < |r| :: r[i] == rows[i].(anomaly :=
              if rows[i].protocol == "http2" && Collapsed(rows, rows[i].service, number, threshold) then "true" else "")
  {
    seq(|rows|, i requires 0 <= i < |rows| => rows[i].(anomaly :=
      if rows[i].protocol == "http2" && Collapsed(rows, rows[i].service, number, threshold) then "true" else ""))
  }

  /** Row j is the last row of a service with one of these protocols. */
  ghost predicate IsLast(rows: seq<Row>, j: nat, service: string, protocols: set<string>) {
    && j < |rows| && rows[j].service == service && rows[j].protocol in protocols
    && forall k | j < k < |rows| && rows[k].service == service :: rows[k].protocol !in protocols
  }

  /** The last HTTP/1 row of a service has a positive p95, and the last HTTP/2 row one above
      the threshold times that. */
  ghost predicate SlowedDown(rows: seq<Row>, service: string, number: Number, threshold: real) {
    exists j: nat, k: nat ::
      && IsLast(rows, j, service, {"http1", "http1.1"}) && IsLast(rows, k, service, {"http2"})
      && number(rows[j].p95).Some? && number(rows[k].p95).Some?
      && number(rows[j].p95).value > 0.0
      && number(rows[k].p95).value > number(rows[j].p95).value * threshold
  }

  lemma {:induction false} LastMatch(rows: seq<Row>, service: string, http2: bool) returns (i: int)
    ensures -1 <= i < |rows| && (i >= 0 ==> Matches(rows[i], service, http2))
    ensures forall k | i < k < |rows| :: !Matches(rows[k], service, http2)
  {
    i := |rows| - 1;
    while i >= 0 && !Matches(rows[i], service, http2)
      invariant -1 <= i < |rows|
      invariant forall k | i < k < |rows| :: !Matches(rows[k], service, http2)
    {
      i := i - 1;
    }
  }

  lemma LastIs(rows: seq<Row>, service: string, http2: bool, i: int, protocols: set<string>)
    requires -1 <= i < |rows| && (i >= 0 ==> Matches(rows[i], service, http2))
    requires forall k | i < k < |rows| :: !Matches(rows[k], service, http2)
    requires protocols == if http2 then {"http2"} else {"http1", "http1.1"}
    ensures forall j: nat :: IsLast(rows, j, service, protocols) <==> j == i
  {
    assert forall k | 0 <= k < |rows| :: Matches(rows[k], service, http2) <==> rows[k].service == service && rows[k].protocol in protocols;
  }

  lemma CollapsedMeaning(rows: seq<Row>, service: string, number: Number, threshold: real)
    ensures Collapsed(rows, service, number, threshold) <==> SlowedDown(rows, service, number, threshold)
  {
    var h1 := LastMatch(rows, service, false);
    var h2 := LastMatch(rows, service, true);
    LastP95Meaning(rows, service, false, number, h1);
    LastP95Meaning(rows, service, true, number, h2);
    LastIs(rows, service, false, h1, {"http1", "http1.1"});
    LastIs(rows, service, true, h2, {"http2"});
    if h1 >= 0 && h2 >= 0 {
      assert IsLast(rows, h1, service, {"http1", "http1.1"}) && IsLast(rows, h2, service, {"http2"});
    }
  }

  datatype Slot = Slot(http1: Option<real>, http2: Option<real>)

  ghost function SlotOf(rows: seq<Row>, service: string, number: Number): Slot {
    Slot(LastP95(rows, service, false, number), LastP95(rows, service, true, number))
  }

  /** The first loop of `computeHttp2CollapseAnomalies`: the last p95 of each service. */
  method GroupByService(rows: seq<Row>, number: Number) returns (byService: map<string, Slot>)
    ensures forall r | r in rows :: r.service in byService && byService[r.service] == SlotOf(rows, r.service, number)
  {
    byService := map[];
    for i := 0 to |rows|
      invariant forall r | r in rows[..i] :: r.service in byService
      invariant forall s :: (if s in byService then byService[s] else Slot(None, None)) == SlotOf(rows[..i], s, number)
    {
      var r := rows[i];
      assert rows[..i + 1] == rows[..i] + [r];
      var slot := if r.service in byService then byService[r.service] else Slot(None, None);
      var p := number(r.p95);
      if r.protocol == "http1.1" || r.protocol == "http1" {
        slot := slot.(http1 := p);
      }
      if r.protocol == "http2" {
        slot := slot.(http2 := p);
      }
      byService := byService[r.service := slot];
    }
    assert rows[..|rows|] == rows;
  }

  /** `computeHttp2CollapseAnomalies`, without its report files. */
  method ComputeAnomalies(rows: seq<Row>, number: Number, threshold: real) returns (marked: seq<Row>)
    ensures marked == Mark(rows, number, threshold)
    ensures |marked| == |rows|
    ensures forall i | 0 <= i < |rows| :: marked[i] == rows[i].(anomaly := marked[i].anomaly)
    ensures forall i | 0 <= i < |rows| :: marked[i].anomaly == "true" <==>
              rows[i].protocol == "http2" && SlowedDown(rows, rows[i].service, number, threshold)
    ensures forall i | 0 <= i < |rows| :: marked[i].anomaly == "true" || marked[i].anomaly == ""
  {
    var byService := GroupByService(rows, number);
    marked := [];
    for i := 0 to |rows|
      invariant marked == Mark(rows, number, threshold)[..i]
    {
      var slot := byService[rows[i].service];
      var flag := if rows[i].protocol == "http2" && Exceeds(slot.http1, slot.http2, threshold) then "true" else "";
      marked := marked + [rows[i].(anomaly := flag)];
    }
    MarkMeaning(rows, number, threshold);
  }

  lemma MarkMeaning(rows: seq<Row>, number: Number, threshold: real)
    ensures forall i | 0 <= i < |rows| :: Mark(rows, number, threshold)[i].anomaly == "true" <==>
              rows[i].protocol == "http2" && SlowedDown(rows, rows[i].service, number, threshold)
  {
    forall i | 0 <= i < |rows|
      ensures Mark(rows, number, threshold)[i].anomaly == "true" <==>
                rows[i].protocol == "http2" && SlowedDown(rows, rows[i].service, number, threshold)
    {
      CollapsedMeaning(rows, rows[i].service, number, threshold);
    }
  }

  /** The anomaly column is a function of the other columns: marking twice marks once. */
  lemma {:induction false} LastP95IgnoresAnomaly(rows: seq<Row>, marked: seq<Row>, service: string, http2: bool, number: Number)
    requires |marked| == |rows| && forall i | 0 <= i < |rows| :: marked[i].(anomaly := "") == rows[i].(anomaly := "")
    ensures LastP95(marked, service, http2, number) == LastP95(rows, service, http2, number)
  {
    if rows != [] {
      var n := |rows| - 1;
      assert marked[n].(anomaly := "") == rows[n].(anomaly := "");
      LastP95IgnoresAnomaly(rows[..n], marked[..n], service, http2, number);
    }
  }

  lemma MarkAgain(rows: seq<Row>, marked: seq<Row>, number: Number, threshold: real)
    requires |marked| == |rows| && forall i | 0 <= i < |rows| :: marked[i].(anomaly := "") == rows[i].(anomaly := "")
    ensures Mark(marked, number, threshold) == Mark(rows, number, threshold)
  {
    forall i | 0 <= i < |rows| ensures Mark(marked, number, threshold)[i] == Mark(rows, number, threshold)[i] {
      assert marked[i].(anomaly := "") == rows[i].(anomaly := "");
      LastP95IgnoresAnomaly(rows, marked, rows[i].service, false, number);
      LastP95IgnoresAnomaly(rows, marked, rows[i].service, true, number);
    }
  }

  // ----- writing

  function WriteRecords(records: seq<seq<string>>): string {
    if records == [] then "" else WriteLine(records[0]) + "\n" + WriteRecords(records[1..])
  }

  function FieldRows(rows: seq<Row>): (t: seq<seq<string>>)
    ensures |t| == |rows| && forall i | 0 <= i < |rows| :: t[i] == Fields(rows[i])
  {
    seq(|rows|, i requires 0 <= i < |rows| => Fields(rows[i]))
  }

  function WriteTable(header: seq<string>, rows: seq<Row>): string {
    WriteRecords([header] + FieldRows(rows))
  }

  function WriteFile(rows: seq<Row>): string {
    WriteTable(HEADER, rows)
  }

  lemma {:induction false} WriteRecordsSnoc(a: seq<seq<string>>, r: seq<string>)
    ensures WriteRecords(a + [r]) == WriteRecords(a) + WriteLine(r) + "\n"
  {
    if a == [] {
      assert ([r])[1..] == [];
    } else {
      assert (a + [r])[1..] == a[1..] + [r];
      WriteRecordsSnoc(a[1..], r);
    }
  }

  lemma {:induction false} JoinSnoc(lines: seq<string>, l: string)
    requires lines != []
    ensures Join(lines + [l], "\n") == Join(lines, "\n") + "\n" + l
  {
    assert (lines + [l])[1..] == lines[1..] + [l];
    if |lines| > 1 {
      JoinSnoc(lines[1..], l);
    } else {
      assert (lines + [l])[1..] == [l];
    }
  }

  lemma {:induction false} PlainLine(fields: seq<string>)
    requires AllPlain(fields)
    ensures WriteLine(fields) == Join(fields, ",")
  {
    assert EscapeAll(fields) == fields;
  }

  predicate AllPlain(fields: seq<string>) {
    forall f | f in fields :: !NeedsQuotes(f)
  }

  lemma AllPlainConcat(a: seq<string>, b: seq<string>)
    requires AllPlain(a) && AllPlain(b)
    ensures AllPlain(a + b)
  {
  }

  lemma KeyColumnsPlain() ensures AllPlain(KEY_COLUMNS) {}
  lemma LatencyColumnsPlain() ensures AllPlain(LATENCY_COLUMNS) {}
  lemma RateColumnsPlain() ensures AllPlain(RATE_COLUMNS) {}
  lemma PhaseColumnsPlain() ensures AllPlain(PHASE_COLUMNS) {}
  lemma LastColumnsPlain() ensures AllPlain(LAST_COLUMNS) {}

  lemma HeaderIsPlain()
    ensures AllPlain(HEADER)
  {
    KeyColumnsPlain();
    LatencyColumnsPlain();
    RateColumnsPlain();
    PhaseColumnsPlain();
    LastColumnsPlain();
    AllPlainConcat(KEY_COLUMNS, LATENCY_COLUMNS);
    AllPlainConcat(KEY_COLUMNS + LATENCY_COLUMNS, RATE_COLUMNS);
    AllPlainConcat(KEY_COLUMNS + LATENCY_COLUMNS + RATE_COLUMNS, PHASE_COLUMNS);
    AllPlainConcat(KEY_COLUMNS + LATENCY_COLUMNS + RATE_COLUMNS + PHASE_COLUMNS, LAST_COLUMNS);
  }

  /** The CSV writer at the end of `main`. */
  method EmitCsv(header: seq<string>, rows: seq<Row>) returns (file: string)
    requires AllPlain(header)
    ensures file == WriteTable(header, rows)
  {
    PlainLine(header);
    var lines := [Join(header, ",")];
    ghost var table := [header] + FieldRows(rows);
    assert table[..1] == [header] && [header][1..] == [];
    for i := 0 to |rows|
      invariant lines != [] && Join(lines, "\n") + "\n" == WriteRecords(table[..i + 1])
    {
      AddLine(lines, table, i + 1);
      lines := lines + [WriteLine(Fields(rows[i]))];
    }
    assert table[..|rows| + 1] == table;
    file := Join(lines, "\n") + "\n";
  }

  lemma AddLine(lines: seq<string>, table: seq<seq<string>>, n: nat)
    requires lines != [] && n < |table| && Join(lines, "\n") + "\n" == WriteRecords(table[..n])
    ensures Join(lines + [WriteLine(table[n])], "\n") + "\n" == WriteRecords(table[..n + 1])
  {
    JoinSnoc(lines, WriteLine(table[n]));
    WriteRecordsSnoc(table[..n], table[n]);
    assert table[..n + 1] == table[..n] + [table[n]];
  }

  // ----- reading

  /** Split at LF or CR LF. */
  function Lines(s: string): (r: seq<string>)
    ensures r != [] && forall i | 0 <= i < |r| :: '\n' !in r[i]
  {
    if s == "" then [""]
    else if s[0] == '\n' then [""] + Lines(s[1..])
    else if s[0] == '\r' && |s| > 1 && s[1] == '\n' then [""] + Lines(s[2..])
    else Prefix([s[0]], Lines(s[1..]))
  }

  function TrimAll(ss: seq<string>): (r: seq<string>)
    ensures |r| == |ss| && forall i | 0 <= i < |r| :: r[i] == Trim(ss[i])
  {
    seq(|ss|, i requires 0 <= i < |ss| => Trim(ss[i]))
  }

  function NonBlank(lines: seq<string>): (r: seq<string>)
    ensures forall l | l in r :: l in lines
  {
    if lines == [] then []
    else (if Trim(lines[0]) != "" then [lines[0]] else []) + NonBlank(lines[1..])
  }

  function IndexOf(header: seq<string>, name: string): (i: int)
    ensures -1 <= i < |header|
  {
    if header == [] then -1
    else if header[0] == name then 0
    else
      var i := IndexOf(header[1..], name);
      if i < 0 then -1 else i + 1
  }

  /** A missing cell prints, compares and parses like an empty one. */
  function Column(header: seq<string>, cells: seq<string>, name: string): string {
    var i := IndexOf(header, name);
    if 0 <= i < |cells| then cells[i] else ""
  }

  lemma {:induction false} IndexOfMeaning(header: seq<string>, name: string)
    ensures var i := IndexOf(header, name);
            if name in header then i >= 0 && header[i] == name && name !in header[..i] else i == -1
  {
    if header != [] && header[0] != name {
      IndexOfMeaning(header[1..], name);
      var i := IndexOf(header[1..], name);
      assert header == [header[0]] + header[1..];
      if i >= 0 {
        assert header[..i + 1] == [header[0]] + header[1..][..i];
      }
    }
  }

  lemma {:induction false} FirstIndex(header: seq<string>, name: string, i: nat)
    requires i < |header| && header[i] == name && name !in header[..i]
    ensures IndexOf(header, name) == i
  {
    if i > 0 {
      assert header[0] in header[..i];
      assert header[1..][..i - 1] == header[..i][1..];
      FirstIndex(header[1..], name, i - 1);
    }
  }

  /** A column is the one of its first name in the header; a cell beyond the end of the row
      reads as empty. */
  lemma ColumnMeaning(header: seq<string>, cells: seq<string>, name: string, i: nat)
    requires i < |header| && header[i] == name && name !in header[..i]
    ensures Column(header, cells, name) == if i < |cells| then cells[i] else ""
  {
    FirstIndex(header, name, i);
  }

  /** So does a column that the header does not name. */
  lemma AbsentColumn(header: seq<string>, cells: seq<string>, name: string)
    requires name !in header
    ensures Column(header, cells, name) == ""
  {
    IndexOfMeaning(header, name);
  }

  function ReadRow(header: seq<string>, cells: seq<string>, fallback: string): Option<Row> {
    var service, protocol, source := Column(header, cells, "service"), Column(header, cells, "protocol"), Column(header, cells, "source_summary");
    if |cells| < |header| && forall c | c in cells :: c == "" then None
    else if service == "" || protocol == "" then None
    else Some(Row(service, protocol, Column(header, cells, "p50"), Column(header, cells, "p95"), Column(header, cells, "p99"),
                  Column(header, cells, "max"), Column(header, cells, "avg"), Column(header, cells, "rps"),
                  Column(header, cells, "fail_rate"), Column(header, cells, "duration_metric"),
                  Column(header, cells, "waiting_p95"), Column(header, cells, "sending_p95"),
                  "", if source != "" then source else fallback))
  }

  function ReadAll(header: seq<string>, lines: seq<string>, fallback: string): (r: seq<Option<Row>>)
    ensures |r| == |lines| && forall i | 0 <= i < |r| :: r[i] == ReadRow(header, Cells(lines[i], false), fallback)
  {
    seq(|lines|, i requires 0 <= i < |lines| => ReadRow(header, Cells(lines[i], false), fallback))
  }

  /** The values that are there, in order. */
  function Present<T>(options: seq<Option<T>>): seq<T> {
    if options == [] then []
    else
      var last := options[|options| - 1];
      Present(options[..|options| - 1]) + if last.Some? then [last.value] else []
  }

  function ReadRows(header: seq<string>, lines: seq<string>, fallback: string): seq<Row> {
    Present(ReadAll(header, lines, fallback))
  }

  function ExtractRows(raw: string, fallback: string): seq<Row> {
    var lines := NonBlank(Lines(raw));
    if |lines| < 2 then []
    else
      var header := TrimAll(Cells(lines[0], false));
      if IndexOf(header, "service") < 0 || IndexOf(header, "protocol") < 0 || IndexOf(header, "p95") < 0 then []
      else ReadRows(header, lines[1..], fallback)
  }

  /** Without a data line, or without one of the three columns it must have, a file has no rows. */
  lemma NoRowsWithoutColumns(raw: string, fallback: string)
    requires var lines := NonBlank(Lines(raw)); |lines| >= 2 ==> LacksColumn(TrimAll(Cells(lines[0], false)))
    ensures ExtractRows(raw, fallback) == []
  {
    var lines := NonBlank(Lines(raw));
    if |lines| >= 2 {
      var header := TrimAll(Cells(lines[0], false));
      IndexOfMeaning(header, "service");
      IndexOfMeaning(header, "protocol");
      IndexOfMeaning(header, "p95");
    }
  }

  predicate LacksColumn(header: seq<string>) {
    "service" !in header || "protocol" !in header || "p95" !in header
  }

  /** Turn LF line ends into CR LF ones. */
  function CrLf(s: string): string {
    if s == "" then "" else (if s[0] == '\n' then "\r\n" else [s[0]]) + CrLf(s[1..])
  }

  ghost predicate OnlyLf(s: string) {
    forall i, j | 0 <= i < j < |s| && j == i + 1 && s[i] == '\r' :: s[j] != '\n'
  }

  lemma {:induction false} LinesIgnoreCr(s: string)
    requires OnlyLf(s)
    ensures Lines(CrLf(s)) == Lines(s)
  {
    if s != "" {
      var rest := CrLf(s[1..]);
      LinesIgnoreCr(s[1..]);
      if s[0] == '\n' {
        assert ("\r\n" + rest)[2..] == rest;
      } else {
        assert ([s[0]] + rest)[1..] == rest;
        assert rest != "" ==> rest[0] != '\n';
        assert |s| > 1 ==> s[1] == s[1..][0];
      }
    }
  }

  /** A file with CR LF line ends yields the rows it yields with LF. */
  lemma RowsIgnoreCr(raw: string, fallback: string)
    requires OnlyLf(raw)
    ensures ExtractRows(CrLf(raw), fallback) == ExtractRows(raw, fallback)
  {
    LinesIgnoreCr(raw);
  }

  /** The row loop of `rowsFromProtocolComparisonCsv`. */
  method CollectRows(header: seq<string>, lines: seq<string>, fallback: string) returns (rows: seq<Row>)
    ensures rows == ReadRows(header, lines, fallback)
  {
    rows := [];
    ghost var all := ReadAll(header, lines, fallback);
    for li := 0 to |lines|
      invariant rows == Present(all[..li])
    {
      var cells := ParseCsvLine(lines[li]);
      var r := ReadRow(header, cells, fallback);
      assert all[..li + 1][..li] == all[..li];
      if r.None? {
        continue;
      }
      rows := rows + [r.value];
    }
    assert all[..|lines|] == all;
  }

  /** `rowsFromProtocolComparisonCsv` on the contents of the file; `fallback` is the relative
      path it puts where no source is recorded. */
  method RowsFromCsv(raw: string, fallback: string) returns (rows: seq<Row>)
    ensures rows == ExtractRows(raw, fallback)
  {
    var lines := NonBlank(Lines(raw));
    if |lines| < 2 {
      return [];
    }
    var header := ParseCsvLine(lines[0]);
    header := TrimAll(header);
    if IndexOf(header, "service") < 0 || IndexOf(header, "protocol") < 0 || IndexOf(header, "p95") < 0 {
      return [];
    }
    rows := CollectRows(header, lines[1..], fallback);
  }

  /** A run that rebuilds its rows from an existing file: the new contents, or None when it
      exits without writing because no row was found. */
  function Rerun(file: string, fallback: string, number: Number, threshold: real): Option<string> {
    var rows := ExtractRows(file, fallback);
    if rows == [] then None else Some(WriteFile(Mark(rows, number, threshold)))
  }

  /** `main`, when no benchmark directory exists and it is told to start from the old file. */
  method RebuildFromCsv(file: string, fallback: string, number: Number, threshold: real) returns (out: Option<string>)
    ensures out == Rerun(file, fallback, number, threshold)
  {
    var rows := RowsFromCsv(file, fallback);
    if rows == [] {
      return None;
    }
    rows := ComputeAnomalies(rows, number, threshold);
    HeaderIsPlain();
    var text := EmitCsv(HEADER, rows);
    return Some(text);
  }
}
