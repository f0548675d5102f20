/** The CSV file that `process_warnings_file` writes with `csv.DictWriter`: a
    header row `file,line,message`, then one row per record in input order.
    The byte layout is that of Python's default "excel" dialect, taken here as
    an assumption about the library: fields separated by `,`, rows ended by
    CR LF, and a field quoted with `"` exactly when it holds `,`, `"`, CR or LF,
    with each `"` inside it doubled (RFC 4180, section 2, rules 6 and 7).
    A reader for that layout is given too, and reading back what was written
    yields the records again. */
module Csv {
  import opened Wrappers
  import opened Text
  import opened WarningParser

  /** The field names given to the DictWriter, in column order. */
  const Header: seq<string> := ["file", "line", "message"]

  /** The row written for one record, in the header's column order. */
  function Row(w: Warning): seq<string>
  {
    [w.file, w.line, w.message]
  }

  /** The rows written: `writeheader()` and then `writerows(warnings)`. */
  function Table(ws: seq<Warning>): seq<seq<string>>
  {
    [Header] + seq(|ws|, j requires 0 <= j < |ws| => Row(ws[j]))
  }

  /** The characters that make the excel dialect quote a field. */
  predicate IsSpecial(c: char)
  {
    c == ',' || c == '"' || c == '\r' || c == '\n'
  }

  /** A character that may stand in an unquoted field. */
  predicate IsBare(c: char)
  {
    !IsSpecial(c)
  }

  /** Minimal quoting: only a field holding a special character is quoted. */
  predicate NeedsQuotes(f: string)
  {
    exists i :: 0 <= i < |f| && IsSpecial(f[i])
  }

  /** Doubles every `"` of a field that is being quoted. */
  function DoubleQuotes(f: string): string
  {
    if f == [] then []
    else (if f[0] == '"' then "\"\"" else [f[0]]) + DoubleQuotes(f[1..])
  }

  /** One field as it appears in the file. */
  function EncodeField(f: string): string
  {
    if NeedsQuotes(f) then "\"" + DoubleQuotes(f) + "\"" else f
  }

  /** The fields of a row joined by `,`. */
  function EncodeFields(fields: seq<string>): string
    requires |fields| > 0
  {
    if |fields| == 1 then EncodeField(fields[0])
    else EncodeField(fields[0]) + "," + EncodeFields(fields[1..])
  }

  /** The excel dialect's row terminator. */
  const LineTerminator: string := "\r\n"

  /** All rows, each followed by the row terminator. */
  function EncodeTable(rows: seq<seq<string>>): string
    requires forall j :: 0 <= j < |rows| ==> |rows[j]| > 0
  {
    if rows == [] then []
    else EncodeFields(rows[0]) + LineTerminator + EncodeTable(rows[1..])
  }

  /** The text of the output file for the collected records. */
  function CsvText(ws: seq<Warning>): string
  {
    EncodeTable(Table(ws))
  }

  /** With no records, the text is the header row alone. */
  lemma HeaderOnlyText()
    ensures CsvText([]) == "file,line,message\r\n"
  {
    assert Table([]) == [Header];
    assert EncodeTable([Header]) == EncodeFields(Header) + LineTerminator;
    HeaderFields();
  }

  /** The header row needs no quoting. */
  lemma HeaderFields()
    ensures EncodeFields(Header) == "file,line,message"
  {
    BareField("file");
    BareField("line");
    BareField("message");
    assert Header[1..] == ["line", "message"] && Header[1..][1..] == ["message"];
  }

  /** A field free of special characters is written as it is. */
  lemma BareField(f: string)
    requires forall i :: 0 <= i < |f| ==> 'a' <= f[i] <= 'z'
    ensures EncodeField(f) == f
  {
  }

  /** A value read from the front of a text, and the text after it. */
  datatype Parsed<T> = Parsed(value: T, rest: string)

  /** Reads the body of a quoted field, up to and including its closing `"`;
      `""` stands for one `"`. */
  function DecodeQuoted(s: string): (r: Option<Parsed<string>>)
    ensures r.Some? ==> |r.value.rest| < |s|
    decreases |s|
  {
    if s == [] then None
    else if s[0] == '"' then
      if |s| > 1 && s[1] == '"' then
        match DecodeQuoted(s[2..])
        case None => None
        case Some(p) => Some(Parsed("\"" + p.value, p.rest))
      else Some(Parsed([], s[1..]))
    else
      match DecodeQuoted(s[1..])
      case None => None
      case Some(p) => Some(Parsed([s[0]] + p.value, p.rest))
  }

  /** Reads one field, quoted or not. */
  function DecodeField(s: string): (r: Option<Parsed<string>>)
    ensures r.Some? ==> |r.value.rest| <= |s|
  {
    if s != [] && s[0] == '"' then DecodeQuoted(s[1..])
    else
      var j := Span(s, 0, IsBare);
      Some(Parsed(s[..j], s[j..]))
  }

  /** Reads the fields of one row and the row terminator after them. */
  function DecodeFields(s: string): (r: Option<Parsed<seq<string>>>)
    ensures r.Some? ==> |r.value.value| > 0 && |r.value.rest| < |s|
    decreases |s|
  {
    match DecodeField(s)
    case None => None
    case Some(p) =>
      if p.rest != [] && p.rest[0] == ',' then
        match DecodeFields(p.rest[1..])
        case None => None
        case Some(q) => Some(Parsed([p.value] + q.value, q.rest))
      else if |p.rest| >= 2 && p.rest[..2] == LineTerminator then
        Some(Parsed([p.value], p.rest[2..]))
      else None
  }

  /** Reads every row of a text. */
  function DecodeTable(s: string): Option<seq<seq<string>>>
    decreases |s|
  {
    if s == [] then Some([])
    else
      match DecodeFields(s)
      case None => None
      case Some(p) =>
        match DecodeTable(p.rest)
        case None => None
        case Some(rows) => Some([p.value] + rows)
  }

  /** Reads a file in this layout back into records: the header must come
      first and every later row must have three fields. */
  function ReadWarnings(s: string): Option<seq<Warning>>
  {
    match DecodeTable(s)
    case None => None
    case Some(rows) =>
      if |rows| > 0 && rows[0] == Header && forall j :: 1 <= j < |rows| ==> |rows[j]| == 3 then
        Some(seq(|rows| - 1, j requires 0 <= j < |rows| - 1 => Warning(rows[j + 1][0], rows[j + 1][1], rows[j + 1][2])))
      else None
  }

  /** The body of a quoted field is read back exactly, whatever follows the
      closing quote except another quote. */
  lemma {:induction false} DoubleQuotesRoundTrip(f: string, rest: string)
    requires rest == [] || rest[0] != '"'
    ensures DecodeQuoted(DoubleQuotes(f) + "\"" + rest) == Some(Parsed(f, rest))
  {
    var s := DoubleQuotes(f) + "\"" + rest;
    if f == [] {
      assert s == "\"" + rest;
    } else {
      DoubleQuotesRoundTrip(f[1..], rest);
      var tail := DoubleQuotes(f[1..]) + "\"" + rest;
      if f[0] == '"' {
        assert s == "\"\"" + tail;
        assert s[2..] == tail;
      } else {
        assert s == [f[0]] + tail;
        assert s[1..] == tail;
      }
      assert [f[0]] + f[1..] == f;
    }
  }

  /** A field reads back as itself whenever a `,`, a CR or the end of the
      text follows it. */
  lemma FieldRoundTrip(f: string, rest: string)
    requires rest == [] || rest[0] == ',' || rest[0] == '\r'
    ensures DecodeField(EncodeField(f) + rest) == Some(Parsed(f, rest))
  {
    if NeedsQuotes(f) {
      QuotedFieldRoundTrip(f, rest);
    } else {
      BareFieldRoundTrip(f, rest);
    }
  }

  /** A quoted field is read back through its body. */
  lemma QuotedFieldRoundTrip(f: string, rest: string)
    requires rest == [] || rest[0] != '"'
    ensures DecodeField("\"" + DoubleQuotes(f) + "\"" + rest) == Some(Parsed(f, rest))
  {
    DoubleQuotesRoundTrip(f, rest);
    OpeningQuote(DoubleQuotes(f), f, rest);
  }

  /** A field that opens with a quote is read as a quoted field: whatever its
      body `q` and closing quote read as, the whole field reads as. */
  lemma OpeningQuote(q: string, f: string, rest: string)
    requires DecodeQuoted(q + "\"" + rest) == Some(Parsed(f, rest))
    ensures DecodeField("\"" + q + "\"" + rest) == Some(Parsed(f, rest))
  {
    var s := "\"" + q + "\"" + rest;
    assert s[0] == '"' && s[1..] == q + "\"" + rest;
  }

  /** A field free of special characters is read back up to the separator,
      row terminator or end of the text that follows it. */
  lemma BareFieldRoundTrip(f: string, rest: string)
    requires !NeedsQuotes(f)
    requires rest == [] || rest[0] == ',' || rest[0] == '\r'
    ensures DecodeField(f + rest) == Some(Parsed(f, rest))
  {
    var s := f + rest;
    forall m | 0 <= m < |f| ensures IsBare(s[m]) {
      assert s[m] == f[m];
    }
    if rest != [] {
      assert s[|f|] == rest[0];
    }
    assert s == [] || s[0] != '"';
    SpanUnique(s, 0, IsBare, |f|);
    assert s[..|f|] == f && s[|f|..] == rest;
  }

  /** A row is read back exactly, whatever text follows it. */
  lemma {:induction false} FieldsRoundTrip(fields: seq<string>, rest: string)
    requires |fields| > 0
    ensures DecodeFields(EncodeFields(fields) + LineTerminator + rest) == Some(Parsed(fields, rest))
  {
    var first := EncodeField(fields[0]);
    if |fields| == 1 {
      var after := LineTerminator + rest;
      Regroup(first, LineTerminator, rest);
      FieldRoundTrip(fields[0], after);
      LastField(first + after, fields[0], rest);
      assert [fields[0]] == fields;
    } else {
      var more := EncodeFields(fields[1..]) + LineTerminator + rest;
      assert EncodeFields(fields) + LineTerminator + rest == first + ("," + more);
      FieldRoundTrip(fields[0], "," + more);
      FieldsRoundTrip(fields[1..], rest);
      NextField(first + ("," + more), fields[0], more, fields[1..], rest);
      assert [fields[0]] + fields[1..] == fields;
    }
  }

  /** The encoded row and what follows it, regrouped around the first field.
      Stated on plain strings so that regrouping does not make the solver
      unfold the encoding functions. */
  lemma Regroup(first: string, tail: string, after: string)
    ensures first + tail + after == first + (tail + after)
  {
  }

  /** A field followed by the row terminator ends the row. */
  lemma LastField(s: string, f: string, rest: string)
    requires DecodeField(s) == Some(Parsed(f, LineTerminator + rest))
    ensures DecodeFields(s) == Some(Parsed([f], rest))
  {
    var after := LineTerminator + rest;
    assert after[0] == '\r' && after[..2] == LineTerminator && after[2..] == rest;
  }

  /** A field followed by a separator is the first of the fields read after it. */
  lemma NextField(s: string, f: string, more: string, fs: seq<string>, rest: string)
    requires DecodeField(s) == Some(Parsed(f, "," + more))
    requires DecodeFields(more) == Some(Parsed(fs, rest))
    ensures DecodeFields(s) == Some(Parsed([f] + fs, rest))
  {
    assert ("," + more)[1..] == more;
  }

  /** A table whose rows are not empty is read back exactly. */
  lemma {:induction false} TableRoundTrip(rows: seq<seq<string>>)
    requires forall j :: 0 <= j < |rows| ==> |rows[j]| > 0
    ensures DecodeTable(EncodeTable(rows)) == Some(rows)
  {
    if rows != [] {
      var s := EncodeTable(rows);
      FieldsRoundTrip(rows[0], EncodeTable(rows[1..]));
      assert s != [];
      TableRoundTrip(rows[1..]);
      assert [rows[0]] + rows[1..] == rows;
    }
  }

  /** The rows of the table: the header, then the row of each record in order. */
  lemma TableRows(ws: seq<Warning>)
    ensures |Table(ws)| == |ws| + 1 && Table(ws)[0] == Header
    ensures forall j :: 0 <= j < |ws| ==> Table(ws)[j + 1] == Row(ws[j])
  {
  }

  /** Records are read back from a header followed by their rows. */
  lemma RowsToWarnings(rows: seq<seq<string>>, ws: seq<Warning>)
    requires |rows| == |ws| + 1 && rows[0] == Header
    requires forall j :: 0 <= j < |ws| ==> rows[j + 1] == Row(ws[j])
    ensures forall j :: 1 <= j < |rows| ==> |rows[j]| == 3
    ensures seq(|rows| - 1, j requires 0 <= j < |rows| - 1 => Warning(rows[j + 1][0], rows[j + 1][1], rows[j + 1][2])) == ws
  {
    forall j | 1 <= j < |rows| ensures |rows[j]| == 3 {
      assert rows[(j - 1) + 1] == Row(ws[j - 1]);
    }
  }

  /** Reading the written file back gives the header and then the records,
      field for field and in order. */
  lemma CsvRoundTrip(ws: seq<Warning>)
    ensures DecodeTable(CsvText(ws)) == Some(Table(ws))
    ensures ReadWarnings(CsvText(ws)) == Some(ws)
  {
    var rows := Table(ws);
    TableRows(ws);
    assert forall j :: 0 <= j < |rows| ==> |rows[j]| > 0 by {
      forall j | 0 <= j < |rows| ensures |rows[j]| > 0 {
        if j > 0 { assert rows[(j - 1) + 1] == Row(ws[j - 1]); }
      }
    }
    TableRoundTrip(rows);
    RowsToWarnings(rows, ws);
  }
}
