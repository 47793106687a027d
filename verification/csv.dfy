/** The text `downloadCSV` of `Timetablecontroller.java` writes: a header line
    naming the time slots, then one line per day with that day's cells. Every
    field is written verbatim, without quoting, and every line ends with the
    line separator. */
module Csv {
  import opened Wrappers
  import opened JavaText

  /** `println()`'s line separator. */
  const Newline: char := '\n'
  const Comma: char := ','
  const HeaderTitle := "Day - Time"

  /** `"," + field` for each field, one after another. */
  function Fields(fields: seq<string>): string {
    if fields == [] then "" else [Comma] + fields[0] + Fields(fields[1..])
  }

  /** The header: the title, then each time-slot label. */
  function HeaderLine(timeSlots: seq<string>): string {
    HeaderTitle + Fields(timeSlots) + [Newline]
  }

  /** A null cell prints as "null". */
  function CellTexts(cells: seq<Option<string>>): (r: seq<string>)
    ensures |r| == |cells|
    ensures forall i :: 0 <= i < |cells| ==> r[i] == JavaString(cells[i])
  {
    if cells == [] then [] else [JavaString(cells[0])] + CellTexts(cells[1..])
  }

  /** One day's line: the day's name, then each of its cells. */
  function DayLine(day: string, cells: seq<Option<string>>): string {
    day + Fields(CellTexts(cells)) + [Newline]
  }

  /** The day lines, in the order of `days`; `None` when a day has no row,
      where `dayToSlots.get(day)` would yield null and the loop over it throw. */
  function DayLines(days: seq<string>, dayToSlots: map<string, seq<Option<string>>>): (r: Option<string>)
    ensures r.Some? <==> forall d :: 0 <= d < |days| ==> days[d] in dayToSlots
  {
    if days == [] then Some("")
    else if days[0] !in dayToSlots then None
    else match DayLines(days[1..], dayToSlots)
      case None => None
      case Some(rest) => Some(DayLine(days[0], dayToSlots[days[0]]) + rest)
  }

  /** `downloadCSV`: the text written to the response, or the exception it throws. */
  function DownloadCsv(timeSlots: seq<string>, days: seq<string>, dayToSlots: map<string, seq<Option<string>>>)
    : (r: Result<string, string>)
    ensures r.Success? <==> forall d :: 0 <= d < |days| ==> days[d] in dayToSlots
  {
    match DayLines(days, dayToSlots)
    case None => Failure("NullPointerException: no row for a day")
    case Some(body) => Success(HeaderLine(timeSlots) + body)
  }

  // ---------------------------------------------------------------------------
  // Reading the text back
  // ---------------------------------------------------------------------------

  /** The pieces of `s` between separators: `k` separators give `k + 1` pieces. */
  function SplitOn(s: string, sep: char): (r: seq<string>)
    ensures |r| >= 1
  {
    if s == [] then [""]
    else if s[0] == sep then [""] + SplitOn(s[1..], sep)
    else
      var rest := SplitOn(s[1..], sep);
      [[s[0]] + rest[0]] + rest[1..]
  }

  /** A piece free of the separator is split off whole. */
  lemma {:induction false} SplitOnPiece(a: string, sep: char, b: string)
    requires sep !in a
    ensures SplitOn(a + [sep] + b, sep) == [a] + SplitOn(b, sep)
  {
    if a != [] {
      var s := a + [sep] + b;
      SplitOnPiece(a[1..], sep, b);
      assert s[1..] == a[1..] + [sep] + b;
      assert s[0] == a[0] && a[0] in a;
      var rest := SplitOn(s[1..], sep);
      assert rest[1..] == SplitOn(b, sep);
      assert [a[0]] + rest[0] == a;
    } else {
      assert a + [sep] + b == [sep] + b;
    }
  }

  /** Text free of the separator is a single piece. */
  lemma {:induction false} SplitOnWhole(a: string, sep: char)
    requires sep !in a
    ensures SplitOn(a, sep) == [a]
  {
    if a != [] {
      SplitOnWhole(a[1..], sep);
      assert a == [a[0]] + a[1..];
    }
  }

  /** No field holds the character `c`. */
  predicate FreeOf(fields: seq<string>, c: char) {
    forall i :: 0 <= i < |fields| ==> c !in fields[i]
  }

  /** Splitting a line at its commas gives back the leading field and the
      fields written after it, when none of them holds a comma. */
  lemma {:induction false} FieldsRoundTrip(first: string, fields: seq<string>)
    requires Comma !in first && FreeOf(fields, Comma)
    ensures SplitOn(first + Fields(fields), Comma) == [first] + fields
    decreases |fields|
  {
    if fields == [] {
      assert first + Fields(fields) == first;
      SplitOnWhole(first, Comma);
    } else {
      assert first + Fields(fields) == first + [Comma] + (fields[0] + Fields(fields[1..]));
      SplitOnPiece(first, Comma, fields[0] + Fields(fields[1..]));
      FieldsRoundTrip(fields[0], fields[1..]);
      assert [fields[0]] + fields[1..] == fields;
    }
  }

  /** The line `DayLines` writes for day `d`, without its line separator. */
  function DayText(days: seq<string>, dayToSlots: map<string, seq<Option<string>>>, d: nat): string
    requires d < |days| && days[d] in dayToSlots
  {
    days[d] + Fields(CellTexts(dayToSlots[days[d]]))
  }

  /** No name, time slot or cell holds `c`. */
  predicate TableFreeOf(timeSlots: seq<string>, days: seq<string>, dayToSlots: map<string, seq<Option<string>>>, c: char) {
    FreeOf(timeSlots, c) && FreeOf(days, c)
    && forall d :: d in dayToSlots ==> FreeOf(CellTexts(dayToSlots[d]), c)
  }

  /** Fields free of a separator make a text free of it, when the separator
      is not the comma `Fields` puts between them. */
  lemma {:induction false} FieldsFreeOf(fields: seq<string>, c: char)
    requires FreeOf(fields, c) && c != Comma
    ensures c !in Fields(fields)
  {
    if fields != [] {
      FieldsFreeOf(fields[1..], c);
    }
  }

  /** Splitting the day lines at the line separators gives each day's line,
      followed by the empty piece after the last separator. */
  lemma {:induction false} DayLinesSplit(days: seq<string>, dayToSlots: map<string, seq<Option<string>>>)
    requires DayLines(days, dayToSlots).Some?
    requires FreeOf(days, Newline) && forall d :: d in dayToSlots ==> FreeOf(CellTexts(dayToSlots[d]), Newline)
    ensures var pieces := SplitOn(DayLines(days, dayToSlots).value, Newline);
            |pieces| == |days| + 1 && pieces[|days|] == ""
            && forall d :: 0 <= d < |days| ==> pieces[d] == DayText(days, dayToSlots, d)
  {
    if days == [] {
    } else {
      var line := DayText(days, dayToSlots, 0);
      var rest := DayLines(days[1..], dayToSlots).value;
      FieldsFreeOf(CellTexts(dayToSlots[days[0]]), Newline);
      assert Newline !in days[0];
      assert DayLines(days, dayToSlots).value == line + [Newline] + rest;
      SplitOnPiece(line, Newline, rest);
      DayLinesSplit(days[1..], dayToSlots);
      forall d | 0 < d < |days| ensures DayText(days[1..], dayToSlots, d - 1) == DayText(days, dayToSlots, d) {
      }
    }
  }

  /** Split at its line separators, the text is the header line and then the pieces of the day lines. */
  lemma CsvLines(timeSlots: seq<string>, days: seq<string>, dayToSlots: map<string, seq<Option<string>>>)
    requires DownloadCsv(timeSlots, days, dayToSlots).Success?
    requires TableFreeOf(timeSlots, days, dayToSlots, Newline)
    ensures SplitOn(DownloadCsv(timeSlots, days, dayToSlots).value, Newline)
         == [HeaderTitle + Fields(timeSlots)] + SplitOn(DayLines(days, dayToSlots).value, Newline)
  {
    var header := HeaderTitle + Fields(timeSlots);
    var body := DayLines(days, dayToSlots).value;
    FieldsFreeOf(timeSlots, Newline);
    assert Newline !in HeaderTitle;
    assert DownloadCsv(timeSlots, days, dayToSlots).value == header + [Newline] + body;
    SplitOnPiece(header, Newline, body);
  }

  /** Reading the text back: split into lines at the line separators, and
      each line into fields at the commas, gives the header's title and time
      slots and, for each day in order, its name and cells; the last line
      separator leaves one empty piece. This holds as long as no name, time
      slot or cell holds a comma or a line separator, since nothing is quoted. */
  lemma CsvRoundTrip(timeSlots: seq<string>, days: seq<string>, dayToSlots: map<string, seq<Option<string>>>)
    requires DownloadCsv(timeSlots, days, dayToSlots).Success?
    requires TableFreeOf(timeSlots, days, dayToSlots, Comma) && TableFreeOf(timeSlots, days, dayToSlots, Newline)
    ensures var lines := SplitOn(DownloadCsv(timeSlots, days, dayToSlots).value, Newline);
            |lines| == |days| + 2 && lines[|days| + 1] == ""
            && SplitOn(lines[0], Comma) == [HeaderTitle] + timeSlots
            && forall d :: 0 <= d < |days| ==>
                 SplitOn(lines[d + 1], Comma) == [days[d]] + CellTexts(dayToSlots[days[d]])
  {
    var lines := SplitOn(DownloadCsv(timeSlots, days, dayToSlots).value, Newline);
    var pieces := SplitOn(DayLines(days, dayToSlots).value, Newline);
    CsvLines(timeSlots, days, dayToSlots);
    DayLinesSplit(days, dayToSlots);
    assert lines == [HeaderTitle + Fields(timeSlots)] + pieces;
    assert Comma !in HeaderTitle;
    FieldsRoundTrip(HeaderTitle, timeSlots);
    forall d | 0 <= d < |days|
      ensures SplitOn(lines[d + 1], Comma) == [days[d]] + CellTexts(dayToSlots[days[d]])
    {
      assert lines[d + 1] == pieces[d] == DayText(days, dayToSlots, d);
      FieldsRoundTrip(days[d], CellTexts(dayToSlots[days[d]]));
    }
  }
}
