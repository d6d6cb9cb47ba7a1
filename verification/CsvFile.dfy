/** A reference reader for whole files, after section 2 of RFC 4180, in which a line break inside
    quotes belongs to the field.  The program has no such reader; it shows that the writer
    itself loses nothing, so that whatever is lost on re-reading is lost by reading line by line. */
module CsvFile {
  import opened CsvLine
  import opened ProtocolCsv

  function PrefixFirst(cur: string, records: seq<seq<string>>): (r: seq<seq<string>>)
    requires records != [] && records[0] != []
    ensures |r| == |records| && r[0] != []
  {
    [Prefix(cur, records[0])] + records[1..]
  }

  /** The records of the rest of a file, read from inside or outside quotes. */
  function Records(s: string, quoted: bool): (r: seq<seq<string>>)
    ensures r != [] && r[0] != []
  {
    if s == "" then [[""]]
    else if quoted then
      if s[0] != '"' then PrefixFirst([s[0]], Records(s[1..], true))
      else if |s| > 1 && s[1] == '"' then PrefixFirst("\"", Records(s[2..], true))
      else Records(s[1..], false)
    else if s[0] == '"' then Records(s[1..], true)
    else if s[0] == '\n' then [[""]] + Records(s[1..], false)
    else if s[0] == ',' then
      var rest := Records(s[1..], false);
      [[""] + rest[0]] + rest[1..]
    else PrefixFirst([s[0]], Records(s[1..], false))
  }

  lemma PrefixFirstTwice(a: string, b: string, records: seq<seq<string>>)
    requires records != [] && records[0] != []
    ensures PrefixFirst(a, PrefixFirst(b, records)) == PrefixFirst(a + b, records)
    ensures PrefixFirst("", records) == records
  {
    PrefixPrefix(a, b, records[0]);
    PrefixPrefix("", "", records[0]);
  }

  lemma {:induction false} PlainRecords(f: string, rest: string)
    requires !NeedsQuotes(f)
    ensures Records(f + rest, false) == PrefixFirst(f, Records(rest, false))
  {
    if f == "" {
      assert f + rest == rest;
      PrefixFirstTwice("", "", Records(rest, false));
    } else {
      assert (f + rest)[1..] == f[1..] + rest;
      PlainRecords(f[1..], rest);
      PrefixFirstTwice([f[0]], f[1..], Records(rest, false));
      assert [f[0]] + f[1..] == f;
    }
  }

  lemma QuoteMarks(t: string)
    ensures Records("\"" + t, false) == Records(t, true)
    ensures t != "" && t[0] != '"' ==> Records("\"" + t, true) == Records(t, false)
    ensures Records("\"\"" + t, true) == PrefixFirst("\"", Records(t, true))
  {
    assert ("\"" + t)[1..] == t;
    assert ("\"\"" + t)[2..] == t;
  }

  lemma QuoteChar(c: char, t: string)
    requires c != '"'
    ensures Records([c] + t, true) == PrefixFirst([c], Records(t, true))
  {
    assert ([c] + t)[1..] == t;
  }

  lemma {:induction false} QuotedRecords(f: string, rest: string)
    requires rest != "" && rest[0] != '"'
    ensures Records(DoubleQuotes(f) + ("\"" + rest), true) == PrefixFirst(f, Records(rest, false))
  {
    DoubledSplit(f, "\"" + rest);
    if f == "" {
      QuoteMarks(rest);
      PrefixFirstTwice("", "", Records(rest, false));
    } else {
      var tail := DoubleQuotes(f[1..]) + ("\"" + rest);
      QuotedRecords(f[1..], rest);
      if f[0] == '"' {
        QuoteMarks(tail);
      } else {
        QuoteChar(f[0], tail);
      }
      PrefixFirstTwice([f[0]], f[1..], Records(rest, false));
      assert [f[0]] + f[1..] == f;
    }
  }

  lemma EscapedRecords(f: string, rest: string)
    requires rest != "" && rest[0] != '"'
    ensures Records(Escape(f) + rest, false) == PrefixFirst(f, Records(rest, false))
  {
    if NeedsQuotes(f) {
      QuotedRecords(f, rest);
      QuoteMarks(DoubleQuotes(f) + ("\"" + rest));
      EscapeSplit(f, rest);
    } else {
      PlainRecords(f, rest);
    }
  }

  lemma {:induction false} LineRecord(fields: seq<string>, rest: string)
    requires fields != []
    ensures Records(WriteLine(fields) + "\n" + rest, false) == [fields] + Records(rest, false)
  {
    var es, end := EscapeAll(fields), "\n" + rest;
    assert end[1..] == rest;
    assert fields[0] + "" == fields[0];
    if |fields| == 1 {
      EscapedRecords(fields[0], end);
      assert WriteLine(fields) + "\n" + rest == Escape(fields[0]) + end;
      assert Prefix(fields[0], [""]) == fields;
      assert ([[""]] + Records(rest, false))[1..] == Records(rest, false);
    } else {
      var tail := WriteLine(fields[1..]) + "\n" + rest;
      assert es[1..] == EscapeAll(fields[1..]);
      assert WriteLine(fields) + "\n" + rest == Escape(fields[0]) + ("," + tail);
      EscapedRecords(fields[0], "," + tail);
      assert ("," + tail)[1..] == tail;
      LineRecord(fields[1..], rest);
      var after := Records("," + tail, false);
      assert after == [[""] + fields[1..]] + Records(rest, false);
      assert after[0] == [""] + fields[1..] && after[0][1..] == fields[1..] && after[1..] == Records(rest, false);
      assert Prefix(fields[0], after[0]) == fields;
    }
  }

  /** Reading a whole written file back gives all records, line breaks in fields included. */
  lemma {:induction false} FileRoundTrip(records: seq<seq<string>>)
    requires forall i | 0 <= i < |records| :: records[i] != []
    ensures Records(WriteRecords(records), false) == records + [[""]]
  {
    if records != [] {
      LineRecord(records[0], WriteRecords(records[1..]));
      FileRoundTrip(records[1..]);
      assert [records[0]] + (records[1..] + [[""]]) == records + [[""]];
    }
  }

  lemma WriteRecordsInjective(a: seq<seq<string>>, b: seq<seq<string>>)
    requires forall i | 0 <= i < |a| :: a[i] != []
    requires forall i | 0 <= i < |b| :: b[i] != []
    requires WriteRecords(a) == WriteRecords(b)
    ensures a == b
  {
    FileRoundTrip(a);
    FileRoundTrip(b);
    assert a == (a + [[""]])[..|a|] && b == (b + [[""]])[..|b|];
  }

  /** Two tables with the same file are the same table. */
  lemma WriteTableInjective(header: seq<string>, a: seq<Row>, b: seq<Row>)
    requires header != [] && WriteTable(header, a) == WriteTable(header, b)
    ensures a == b
  {
    WriteRecordsInjective([header] + FieldRows(a), [header] + FieldRows(b));
    assert FieldRows(a) == ([header] + FieldRows(a))[1..];
    assert FieldRows(b) == ([header] + FieldRows(b))[1..];
    forall i | 0 <= i < |a| ensures a[i] == b[i] {
      assert FieldRows(a)[i] == FieldRows(b)[i];
      SameFields(a[i], b[i]);
    }
  }

  lemma SameFields(a: Row, b: Row)
    requires Fields(a) == Fields(b)
    ensures a == b
  {
    var f, h := Fields(a), Fields(b);
    assert f[0] == h[0] && f[1] == h[1] && f[2] == h[2] && f[3] == h[3] && f[4] == h[4] && f[5] == h[5] && f[6] == h[6];
    assert f[7] == h[7] && f[8] == h[8] && f[9] == h[9] && f[10] == h[10] && f[11] == h[11] && f[12] == h[12] && f[13] == h[13];
  }
}
