/** One line of CSV (section 2 of RFC 4180): the escaping writer and the two line parsers. */
module CsvLine {
  import opened Common

  // ----- writing

  predicate NeedsQuotes(s: string) {
    '"' in s || ',' in s || '\n' in s || '\r' in s
  }

  function DoubleQuotes(s: string): string {
    if s == "" then "" else (if s[0] == '"' then "\"\"" else [s[0]]) + DoubleQuotes(s[1..])
  }

  function Escape(s: string): string {
    if NeedsQuotes(s) then "\"" + DoubleQuotes(s) + "\"" else s
  }

  function EscapeAll(fields: seq<string>): (r: seq<string>)
    ensures |r| == |fields| && forall i | 0 <= i < |r| :: r[i] == Escape(fields[i])
  {
    if fields == [] then [] else [Escape(fields[0])] + EscapeAll(fields[1..])
  }

  function WriteLine(fields: seq<string>): string {
    Join(EscapeAll(fields), ",")
  }

  lemma {:induction false} DoubleQuotesPlain(s: string)
    ensures |DoubleQuotes(s)| >= |s|
    ensures '"' !in s ==> DoubleQuotes(s) == s
  {
    if s != "" {
      DoubleQuotesPlain(s[1..]);
      assert s == [s[0]] + s[1..];
    }
  }

  /** A field is written as it is exactly when it holds no quote, comma, LF or CR; any other
      is put in quotes. */
  lemma EscapeMeaning(s: string)
    ensures Escape(s) == s <==> forall c | c in s :: c !in {'"', ',', '\n', '\r'}
    ensures Escape(s) != s ==> |Escape(s)| >= |s| + 2 && Escape(s)[0] == '"' && Escape(s)[|Escape(s)| - 1] == '"'
  {
    DoubleQuotesPlain(s);
  }

  // ----- what a line means

  /** Put `cur` in front of the first cell. */
  function Prefix(cur: string, cells: seq<string>): (r: seq<string>)
    requires cells != []
    ensures |r| == |cells|
  {
    [cur + cells[0]] + cells[1..]
  }

  /** The cells of the rest of a line, read from inside (`quoted`) or outside quotes. */
  function Cells(s: string, quoted: bool): (r: seq<string>)
    ensures r != []
  {
    if s == "" then [""]
    else if quoted then
      if s[0] != '"' then Prefix([s[0]], Cells(s[1..], true))
      else if |s| > 1 && s[1] == '"' then Prefix("\"", Cells(s[2..], true))
      else Cells(s[1..], false)
    else if s[0] == '"' then Cells(s[1..], true)
    else if s[0] == ',' then [""] + Cells(s[1..], false)
    else Prefix([s[0]], Cells(s[1..], false))
  }

  lemma PrefixPrefix(a: string, b: string, cells: seq<string>)
    requires cells != []
    ensures Prefix(a, Prefix(b, cells)) == Prefix(a + b, cells)
    ensures Prefix("", cells) == cells
  {
    assert a + (b + cells[0]) == (a + b) + cells[0];
    assert "" + cells[0] == cells[0];
  }

  lemma PushCell(out: seq<string>, cur: string, cells: seq<string>)
    requires cells != []
    ensures out + Prefix(cur, [""] + cells) == (out + [cur]) + Prefix("", cells)
    ensures out + Prefix(cur, [""]) == out + [cur]
  {
    PrefixPrefix("", "", cells);
    assert cur + "" == cur;
    assert ([""] + cells)[1..] == cells;
  }

  // ----- the two parsers

  /** `parseCsvLine` of scripts/perf/extract-protocol-matrix.js. */
  method ParseCsvLine(line: string) returns (out: seq<string>)
    ensures out == Cells(line, false)
  {
    out := [];
    var cur, inQ, i := "", false, 0;
    assert line[0..] == line;
    PrefixPrefix("", "", Cells(line, false));
    while i < |line|
      invariant 0 <= i <= |line|
      invariant out + Prefix(cur, Cells(line[i..], inQ)) == Cells(line, false)
    {
      var c := line[i];
      ghost var rest := line[i..];
      assert line[i + 1..] == rest[1..];
      if inQ {
        if c == '"' {
          if i + 1 < |line| && line[i + 1] == '"' {
            assert line[i + 2..] == rest[2..];
            PrefixPrefix(cur, "\"", Cells(rest[2..], true));
            cur := cur + "\"";
            i := i + 1;
          } else {
            inQ := false;
          }
        } else {
          PrefixPrefix(cur, [c], Cells(rest[1..], true));
          cur := cur + [c];
        }
      } else if c == '"' {
        inQ := true;
      } else if c == ',' {
        PushCell(out, cur, Cells(rest[1..], false));
        out := out + [cur];
        cur := "";
      } else {
        PrefixPrefix(cur, [c], Cells(rest[1..], false));
        cur := cur + [c];
      }
      i := i + 1;
    }
    PushCell(out, cur, [""]);
    out := out + [cur];
  }

  /** `splitCsv` of scripts/load/summarize-ceiling-matrix.js: other branches, same cells. */
  method SplitCsv(line: string) returns (out: seq<string>)
    ensures out == Cells(line, false)
  {
    out := [];
    var cur, inQ, i := "", false, 0;
    assert line[0..] == line;
    PrefixPrefix("", "", Cells(line, false));
    while i < |line|
      invariant 0 <= i <= |line|
      invariant out + Prefix(cur, Cells(line[i..], inQ)) == Cells(line, false)
    {
      var ch := line[i];
      ghost var rest := line[i..];
      assert line[i + 1..] == rest[1..];
      if ch == '"' {
        if inQ && i + 1 < |line| && line[i + 1] == '"' {
          assert line[i + 2..] == rest[2..];
          PrefixPrefix(cur, "\"", Cells(rest[2..], true));
          cur := cur + "\"";
          i := i + 1;
        } else {
          inQ := !inQ;
        }
      } else if ch == ',' && !inQ {
        PushCell(out, cur, Cells(rest[1..], false));
        out := out + [cur];
        cur := "";
      } else {
        PrefixPrefix(cur, [ch], Cells(rest[1..], inQ));
        cur := cur + [ch];
      }
      i := i + 1;
    }
    PushCell(out, cur, [""]);
    out := out + [cur];
  }

  // ----- parsers undo the writer

  lemma {:induction false} PlainCells(f: string, rest: string)
    requires '"' !in f && ',' !in f
    ensures Cells(f + rest, false) == Prefix(f, Cells(rest, false))
  {
    if f == "" {
      assert f + rest == rest;
      PrefixPrefix("", "", Cells(rest, false));
    } else {
      assert (f + rest)[1..] == f[1..] + rest;
      PlainCells(f[1..], rest);
      PrefixPrefix([f[0]], f[1..], Cells(rest, false));
      assert [f[0]] + f[1..] == f;
    }
  }

  lemma Associative(a: string, b: string, c: string)
    ensures (a + b) + c == a + (b + c)
  {
  }

  lemma DoubledSplit(f: string, end: string)
    ensures f == "" ==> DoubleQuotes(f) + end == end
    ensures f != "" && f[0] == '"' ==> DoubleQuotes(f) + end == "\"\"" + (DoubleQuotes(f[1..]) + end)
    ensures f != "" && f[0] != '"' ==> DoubleQuotes(f) + end == [f[0]] + (DoubleQuotes(f[1..]) + end)
  {
    if f != "" {
      Associative(if f[0] == '"' then "\"\"" else [f[0]], DoubleQuotes(f[1..]), end);
    }
  }

  lemma EscapeSplit(f: string, rest: string)
    requires NeedsQuotes(f)
    ensures Escape(f) + rest == "\"" + (DoubleQuotes(f) + ("\"" + rest))
  {
  }

  lemma CellMarks(t: string)
    ensures Cells("\"" + t, false) == Cells(t, true)
    ensures t == "" || t[0] != '"' ==> Cells("\"" + t, true) == Cells(t, false)
    ensures Cells("\"\"" + t, true) == Prefix("\"", Cells(t, true))
  {
    assert ("\"" + t)[1..] == t;
    assert ("\"\"" + t)[2..] == t;
  }

  lemma CellChar(c: char, t: string)
    requires c != '"'
    ensures Cells([c] + t, true) == Prefix([c], Cells(t, true))
  {
    assert ([c] + t)[1..] == t;
  }

  lemma {:induction false} QuotedCells(f: string, rest: string)
    requires rest == "" || rest[0] != '"'
    ensures Cells(DoubleQuotes(f) + ("\"" + rest), true) == Prefix(f, Cells(rest, false))
  {
    DoubledSplit(f, "\"" + rest);
    if f == "" {
      CellMarks(rest);
      PrefixPrefix("", "", Cells(rest, false));
    } else {
      var tail := DoubleQuotes(f[1..]) + ("\"" + rest);
      QuotedCells(f[1..], rest);
      if f[0] == '"' {
        CellMarks(tail);
      } else {
        CellChar(f[0], tail);
      }
      PrefixPrefix([f[0]], f[1..], Cells(rest, false));
      assert [f[0]] + f[1..] == f;
    }
  }

  lemma EscapedCells(f: string, rest: string)
    requires rest == "" || rest[0] != '"'
    ensures Cells(Escape(f) + rest, false) == Prefix(f, Cells(rest, false))
  {
    if NeedsQuotes(f) {
      QuotedCells(f, rest);
      CellMarks(DoubleQuotes(f) + ("\"" + rest));
      EscapeSplit(f, rest);
    } else {
      PlainCells(f, rest);
    }
  }

  /** Escaping, joining with commas and splitting gives back any non-empty list of fields. */
  lemma {:induction false} LineRoundTrip(fields: seq<string>)
    requires fields != []
    ensures Cells(WriteLine(fields), false) == fields
  {
    var es := EscapeAll(fields);
    if |fields| == 1 {
      EscapedCells(fields[0], "");
      assert es[0] + "" == es[0] && fields[0] + "" == fields[0];
      assert Prefix(fields[0], [""]) == fields;
    } else {
      var rest := "," + WriteLine(fields[1..]);
      assert es[1..] == EscapeAll(fields[1..]);
      assert WriteLine(fields) == Escape(fields[0]) + rest;
      EscapedCells(fields[0], rest);
      assert rest[1..] == WriteLine(fields[1..]);
      LineRoundTrip(fields[1..]);
      assert Cells(rest, false) == [""] + fields[1..];
      assert fields[0] + "" == fields[0] && Cells(rest, false)[1..] == fields[1..];
      assert fields == [fields[0]] + fields[1..];
    }
  }

  /** Hence the writer loses nothing: two lists with the same line are the same list. */
  lemma WriteLineInjective(a: seq<string>, b: seq<string>)
    requires a != [] && b != [] && WriteLine(a) == WriteLine(b)
    ensures a == b
  {
    LineRoundTrip(a);
    LineRoundTrip(b);
  }
}
