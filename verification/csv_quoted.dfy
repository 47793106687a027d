/** The CSV text with fields quoted as section 2 of RFC 4180 describes
    (rules 6 and 7): a field holding a comma, a double quote or a line break
    is enclosed in double quotes, and each double quote inside it is doubled.
    Unlike the unquoted text `downloadCSV` writes, this text determines the
    table it was written from. */
module QuotedCsv {
  import opened Wrappers
  import opened JavaText
  import opened Csv

  const Quote: char := '"'
  const Return: char := '\r'

  // ---------------------------------------------------------------------------
  // The text as written is ambiguous
  // ---------------------------------------------------------------------------

  /** Two rows of the same width, which differ only in which of their two
      cells holds the comma, are written as the same text, so no reader can
      tell the two tables apart. */
  lemma AsWrittenCsvAmbiguous(timeSlots: seq<string>)
    ensures var one := map["Monday" := [Some("a,b"), Some("c")]];
            var two := map["Monday" := [Some("a"), Some("b,c")]];
            |one["Monday"]| == |two["Monday"]| && one["Monday"] != two["Monday"]
            && DownloadCsv(timeSlots, ["Monday"], one) == DownloadCsv(timeSlots, ["Monday"], two)
  {
    var one := map["Monday" := [Some("a,b"), Some("c")]];
    var two := map["Monday" := [Some("a"), Some("b,c")]];
    assert CellTexts(one["Monday"]) == ["a,b", "c"] by {
      assert CellTexts([Some("c")]) == ["c"];
    }
    assert CellTexts(two["Monday"]) == ["a", "b,c"] by {
      assert CellTexts([Some("b,c")]) == ["b,c"];
    }
    assert Fields(["a,b", "c"]) == ",a,b,c" by {
      assert Fields(["c"]) == ",c";
    }
    assert Fields(["a", "b,c"]) == ",a,b,c" by {
      assert Fields(["b,c"]) == ",b,c";
    }
    assert DayLines(["Monday"], one) == DayLines(["Monday"], two);
  }

  // ---------------------------------------------------------------------------
  // Writing with quotes
  // ---------------------------------------------------------------------------

  predicate NeedsQuotes(field: string) {
    Comma in field || Quote in field || Newline in field || Return in field
  }

  /** Every double quote doubled. */
  function DoubleQuotes(field: string): string {
    if field == [] then ""
    else (if field[0] == Quote then [Quote, Quote] else [field[0]]) + DoubleQuotes(field[1..])
  }

  /** A field as rules 6 and 7 write it. */
  function Escape(field: string): string {
    if NeedsQuotes(field) then [Quote] + DoubleQuotes(field) + [Quote] else field
  }

  /** `"," + escaped field` for each field. */
  function EscapedFields(fields: seq<string>): string {
    if fields == [] then "" else [Comma] + Escape(fields[0]) + EscapedFields(fields[1..])
  }

  /** One line: its fields separated by commas, then the line separator. */
  function EncodeRecord(fields: seq<string>): string
    requires fields != []
  {
    Escape(fields[0]) + EscapedFields(fields[1..]) + [Newline]
  }

  predicate NoEmptyRecord(records: seq<seq<string>>) {
    forall i :: 0 <= i < |records| ==> records[i] != []
  }

  function EncodeDocument(records: seq<seq<string>>): string
    requires NoEmptyRecord(records)
  {
    if records == [] then "" else EncodeRecord(records[0]) + EncodeDocument(records[1..])
  }

  /** The header record and one record per day. */
  function TableRecords(timeSlots: seq<string>, days: seq<string>, dayToSlots: map<string, seq<Option<string>>>)
    : (r: seq<seq<string>>)
    requires forall d :: 0 <= d < |days| ==> days[d] in dayToSlots
    ensures |r| == |days| + 1 && NoEmptyRecord(r)
    ensures r[0] == [HeaderTitle] + timeSlots
    ensures forall d :: 0 <= d < |days| ==> r[d + 1] == [days[d]] + CellTexts(dayToSlots[days[d]])
  {
    [[HeaderTitle] + timeSlots] + seq(|days|, d requires 0 <= d < |days| => [days[d]] + CellTexts(dayToSlots[days[d]]))
  }

  /** `downloadCSV` with every field escaped. */
  function DownloadQuotedCsv(timeSlots: seq<string>, days: seq<string>, dayToSlots: map<string, seq<Option<string>>>)
    : (r: Result<string, string>)
    ensures r.Success? <==> forall d :: 0 <= d < |days| ==> days[d] in dayToSlots
  {
    if forall d :: 0 <= d < |days| ==> days[d] in dayToSlots
    then Success(EncodeDocument(TableRecords(timeSlots, days, dayToSlots)))
    else Failure("NullPointerException: no row for a day")
  }

  // ---------------------------------------------------------------------------
  // Reading
  // ---------------------------------------------------------------------------

  /** A field outside quotes runs to the next comma or line separator. */
  function ParseUnquoted(s: string): (r: (string, string))
    ensures |r.1| <= |s|
  {
    if s == [] || s[0] == Comma || s[0] == Newline then ("", s)
    else
      var t := ParseUnquoted(s[1..]);
      ([s[0]] + t.0, t.1)
  }

  /** A field inside quotes, read after its opening quote: a doubled quote
      stands for one quote, and a lone quote closes the field. */
  function ParseQuoted(s: string): (r: (string, string))
    ensures |r.1| <= |s|
  {
    if s == [] then ("", "")
    else if s[0] == Quote then
      if |s| > 1 && s[1] == Quote then
        var t := ParseQuoted(s[2..]);
        ([Quote] + t.0, t.1)
      else ("", s[1..])
    else
      var t := ParseQuoted(s[1..]);
      ([s[0]] + t.0, t.1)
  }

  function ParseField(s: string): (r: (string, string))
    ensures |r.1| <= |s|
  {
    if s != [] && s[0] == Quote then ParseQuoted(s[1..]) else ParseUnquoted(s)
  }

  /** The fields of one line, and the text after its line separator. */
  function ParseRecord(s: string): (r: (seq<string>, string))
    ensures |r.1| < |s| || (s == [] && r.1 == [])
    decreases |s|
  {
    var f := ParseField(s);
    if f.1 == [] then ([f.0], [])
    else if f.1[0] == Comma then
      var t := ParseRecord(f.1[1..]);
      ([f.0] + t.0, t.1)
    else ([f.0], f.1[1..])
  }

  /** Every line of the text, each as its fields. */
  function ParseDocument(s: string): seq<seq<string>>
    decreases |s|
  {
    if s == [] then []
    else
      var r := ParseRecord(s);
      [r.0] + ParseDocument(r.1)
  }

  // ---------------------------------------------------------------------------
  // Reading back what was written
  // ---------------------------------------------------------------------------

  /** What may follow a field: nothing, a comma or a line separator. */
  predicate FieldEnd(rest: string) {
    rest == [] || rest[0] == Comma || rest[0] == Newline
  }

  lemma {:induction false} UnquotedRoundTrip(field: string, rest: string)
    requires !NeedsQuotes(field) && FieldEnd(rest)
    ensures ParseUnquoted(field + rest) == (field, rest)
  {
    if field != [] {
      assert field[0] in field;
      assert (field + rest)[1..] == field[1..] + rest;
      assert !NeedsQuotes(field[1..]) by {
        forall c | c in field[1..] ensures c in field { }
      }
      UnquotedRoundTrip(field[1..], rest);
      assert [field[0]] + field[1..] == field;
    } else {
      assert field + rest == rest;
    }
  }

  lemma {:induction false} QuotedRoundTrip(field: string, rest: string)
    requires FieldEnd(rest)
    ensures ParseQuoted(DoubleQuotes(field) + [Quote] + rest) == (field, rest)
  {
    var s := DoubleQuotes(field) + [Quote] + rest;
    if field == [] {
      assert s == [Quote] + rest;
    } else if field[0] == Quote {
      assert s == [Quote, Quote] + (DoubleQuotes(field[1..]) + [Quote] + rest);
      QuotedRoundTrip(field[1..], rest);
      assert [Quote] + field[1..] == field;
    } else {
      assert s == [field[0]] + (DoubleQuotes(field[1..]) + [Quote] + rest);
      QuotedRoundTrip(field[1..], rest);
      assert [field[0]] + field[1..] == field;
    }
  }

  /** Reading an escaped field gives back the field, and stops where it ends. */
  lemma FieldRoundTrip(field: string, rest: string)
    requires FieldEnd(rest)
    ensures ParseField(Escape(field) + rest) == (field, rest)
  {
    if NeedsQuotes(field) {
      assert Escape(field) + rest == [Quote] + (DoubleQuotes(field) + [Quote] + rest);
      QuotedRoundTrip(field, rest);
    } else {
      UnquotedRoundTrip(field, rest);
      if field != [] {
        assert field[0] in field;
      }
    }
  }

  /** Reading the fields of a line gives back the line's fields, and leaves
      the text after its line separator. */
  lemma {:induction false} RecordRoundTrip(first: string, fields: seq<string>, rest: string)
    ensures ParseRecord(Escape(first) + EscapedFields(fields) + [Newline] + rest) == ([first] + fields, rest)
    decreases |fields|
  {
    var s := Escape(first) + EscapedFields(fields) + [Newline] + rest;
    if fields == [] {
      assert s == Escape(first) + ([Newline] + rest);
      RecordEnd(first, rest);
      assert [first] + fields == [first];
    } else {
      var tail := Escape(fields[0]) + EscapedFields(fields[1..]) + [Newline] + rest;
      LineCons(first, fields, rest);
      RecordNext(first, tail);
      RecordRoundTrip(fields[0], fields[1..], rest);
      assert [first] + ([fields[0]] + fields[1..]) == [first] + fields;
    }
  }

  /** A line with more than one field is its first field, a comma, and the
      line of the remaining fields. */
  lemma LineCons(first: string, fields: seq<string>, rest: string)
    requires fields != []
    ensures Escape(first) + EscapedFields(fields) + [Newline] + rest
         == Escape(first) + ([Comma] + (Escape(fields[0]) + EscapedFields(fields[1..]) + [Newline] + rest))
  {
    var more := Escape(fields[0]) + EscapedFields(fields[1..]);
    assert EscapedFields(fields) == [Comma] + more;
  }

  /** A field followed by a comma is read, and the line goes on after the comma. */
  lemma RecordNext(first: string, tail: string)
    ensures ParseRecord(Escape(first) + ([Comma] + tail))
         == ([first] + ParseRecord(tail).0, ParseRecord(tail).1)
  {
    var after := [Comma] + tail;
    FieldRoundTrip(first, after);
    var f := ParseField(Escape(first) + after);
    assert f.1 == after && f.1[0] == Comma;
    assert f.1[1..] == tail;
  }

  /** A line's last field is read up to the line separator, which is skipped. */
  lemma RecordEnd(first: string, rest: string)
    ensures ParseRecord(Escape(first) + ([Newline] + rest)) == ([first], rest)
  {
    var after := [Newline] + rest;
    FieldRoundTrip(first, after);
    var f := ParseField(Escape(first) + after);
    assert f.1 == after && f.1[0] != Comma;
    assert f.1[1..] == rest;
  }

  /** Reading the text gives back every record written. */
  lemma {:induction false} DocumentRoundTrip(records: seq<seq<string>>)
    requires NoEmptyRecord(records)
    ensures ParseDocument(EncodeDocument(records)) == records
  {
    if records != [] {
      var r := records[0];
      var rest := EncodeDocument(records[1..]);
      RecordRoundTrip(r[0], r[1..], rest);
      assert [r[0]] + r[1..] == r;
      assert EncodeDocument(records) == Escape(r[0]) + EscapedFields(r[1..]) + [Newline] + rest;
      DocumentRoundTrip(records[1..]);
    }
  }

  /** The quoted text determines the table: reading it gives the header's
      title and time slots, then each day's name and cells, whatever
      characters they hold. */
  lemma QuotedCsvRoundTrip(timeSlots: seq<string>, days: seq<string>, dayToSlots: map<string, seq<Option<string>>>)
    requires DownloadQuotedCsv(timeSlots, days, dayToSlots).Success?
    ensures var records := ParseDocument(DownloadQuotedCsv(timeSlots, days, dayToSlots).value);
            |records| == |days| + 1
            && records[0] == [HeaderTitle] + timeSlots
            && forall d :: 0 <= d < |days| ==> records[d + 1] == [days[d]] + CellTexts(dayToSlots[days[d]])
  {
    DocumentRoundTrip(TableRecords(timeSlots, days, dayToSlots));
  }

  // ---------------------------------------------------------------------------
  // Ordinary tables are written as before
  // ---------------------------------------------------------------------------

  /** No field needs quotes. */
  predicate Plain(fields: seq<string>) {
    forall i :: 0 <= i < |fields| ==> !NeedsQuotes(fields[i])
  }

  lemma {:induction false} PlainFieldsUnchanged(fields: seq<string>)
    requires Plain(fields)
    ensures EscapedFields(fields) == Fields(fields)
  {
    if fields != [] {
      PlainFieldsUnchanged(fields[1..]);
    }
  }

  /** When no name, slot or cell holds a comma, a double quote or a line
      break, the quoted text is the text `downloadCSV` writes. */
  lemma {:induction false} QuotingKeepsPlainTables(timeSlots: seq<string>, days: seq<string>, dayToSlots: map<string, seq<Option<string>>>)
    requires forall d :: 0 <= d < |days| ==> days[d] in dayToSlots
    requires Plain(timeSlots) && Plain(days) && forall d :: d in dayToSlots ==> Plain(CellTexts(dayToSlots[d]))
    ensures DownloadQuotedCsv(timeSlots, days, dayToSlots) == DownloadCsv(timeSlots, days, dayToSlots)
  {
    assert !NeedsQuotes(HeaderTitle);
    PlainFieldsUnchanged(timeSlots);
    PlainDaysUnchanged(timeSlots, days, dayToSlots);
  }

  lemma {:induction false} PlainDaysUnchanged(timeSlots: seq<string>, days: seq<string>, dayToSlots: map<string, seq<Option<string>>>)
    requires forall d :: 0 <= d < |days| ==> days[d] in dayToSlots
    requires Plain(days) && forall d :: d in dayToSlots ==> Plain(CellTexts(dayToSlots[d]))
    ensures EncodeDocument(TableRecords(timeSlots, days, dayToSlots)[1..]) == DayLines(days, dayToSlots).value
  {
    var recs := TableRecords(timeSlots, days, dayToSlots)[1..];
    if days != [] {
      var cells := CellTexts(dayToSlots[days[0]]);
      PlainFieldsUnchanged(cells);
      assert !NeedsQuotes(days[0]);
      assert recs[0] == [days[0]] + cells;
      assert EncodeRecord(recs[0]) == DayLine(days[0], dayToSlots[days[0]]);
      PlainDaysUnchanged(timeSlots, days[1..], dayToSlots);
      assert recs[1..] == TableRecords(timeSlots, days[1..], dayToSlots)[1..];
    }
  }
}
