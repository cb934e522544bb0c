/**
 * lib/csvGenerator.ts: the text `generateCSV` hands to the download. The
 * caller's events are sorted in place by date, each becomes a row of five
 * cells wrapped in double quotes and joined with commas, an unquoted header
 * line goes first, and the lines are joined with `\n`. Embedded quotes are
 * not doubled.
 */
module CsvGenerator {
  import opened Wrappers
  import opened Text
  import opened Calendar
  import opened CalendarTypes
  import opened EventOrder
  import opened DateFormat

  /** `headers`. */
  const Headers: seq<string> := ["Month", "Date", "Day", "Event Name", "Notes"]

  /** `event.notes || ''`. */
  function NotesCell(e: CalendarEvent): string {
    if e.notes.Some? then e.notes.value else ""
  }

  /** The five cells of an event's row: the month's name, the `yyyy-MM-dd`
      date, the weekday's name, the rule's name and the notes. */
  function Row(e: CalendarEvent): seq<string> {
    [MonthName(e.date.month), IsoDate(e.date), WeekdayName(Weekday(e.date)), e.ruleName, NotesCell(e)]
  }

  /** `"${cell}"`. */
  function Quote(cell: string): string {
    "\"" + cell + "\""
  }

  /** `row.map(cell => ...)`. */
  function Quoted(row: seq<string>): (r: seq<string>)
    ensures |r| == |row|
  {
    if row == [] then [] else [Quote(row[0])] + Quoted(row[1..])
  }

  /** One data line. */
  function RowLine(row: seq<string>): string {
    Join(Quoted(row), ",")
  }

  /** `rows.map(...)`: one data line per event, in order. */
  function RowLines(events: seq<CalendarEvent>): (r: seq<string>)
    ensures |r| == |events|
  {
    if events == [] then [] else [RowLine(Row(events[0]))] + RowLines(events[1..])
  }

  /** The header line, then the data lines. */
  function CsvLines(events: seq<CalendarEvent>): seq<string> {
    [Join(Headers, ",")] + RowLines(events)
  }

  /** `csvContent` for events already in the order the sort left them. */
  function CsvContent(events: seq<CalendarEvent>): string {
    Join(CsvLines(events), "\n")
  }

  /** `generateCSV` up to the download: the caller's array is left sorted by
      date and the content lists its events in that order. */
  method GenerateCSV(events: array<CalendarEvent>) returns (content: string)
    modifies events
    ensures events[..] == SortByDate(old(events[..]))
    ensures content == CsvContent(events[..])
  {
    SortEvents(events);
    content := CsvContent(events[..]);
  }

  // ----------------------------------------------------------- properties

  /** The header line is the five names, unquoted. */
  lemma HeaderLineText()
    ensures Join(Headers, ",") == "Month,Date,Day,Event Name,Notes"
  {
    var h := Headers;
    assert h[1..] == ["Date", "Day", "Event Name", "Notes"];
    JoinCons("Month", h[1..], ",");
    assert h[2..] == ["Day", "Event Name", "Notes"];
    JoinCons("Date", h[2..], ",");
    assert h[3..] == ["Event Name", "Notes"];
    JoinCons("Day", h[3..], ",");
    assert h[4..] == ["Notes"];
    JoinCons("Event Name", h[4..], ",");
  }

  /** The data line of event `i` is line `i + 1`. */
  lemma {:induction false} RowLinesAt(events: seq<CalendarEvent>)
    ensures forall i :: 0 <= i < |events| ==> RowLines(events)[i] == RowLine(Row(events[i]))
    decreases |events|
  {
    if events != [] {
      RowLinesAt(events[1..]);
    }
  }

  /** One header line followed by exactly one line per event, in order. */
  lemma CsvLinesShape(events: seq<CalendarEvent>)
    ensures var lines := CsvLines(events);
      |lines| == |events| + 1 && lines[0] == "Month,Date,Day,Event Name,Notes"
      && forall i :: 0 <= i < |events| ==> lines[i + 1] == RowLine(Row(events[i]))
  {
    HeaderLineText();
    RowLinesAt(events);
  }

  /** Each row has five cells: the date cell reads back as the event's date
      for the years `yyyy` prints in four digits, the name cells name that
      date's month and weekday, and missing notes give an empty cell. */
  lemma RowCells(e: CalendarEvent)
    ensures var row := Row(e);
      |row| == 5 && row[3] == e.ruleName
      && (e.notes.None? ==> row[4] == "") && (e.notes.Some? ==> row[4] == e.notes.value)
    ensures 1 <= e.date.year <= 9999 ==>
      var d := ReadIsoDate(Row(e)[1]);
      d == Some(e.date) && Row(e)[0] == MonthName(d.value.month) && Row(e)[2] == WeekdayName(Weekday(d.value))
  {
    if 1 <= e.date.year <= 9999 {
      IsoDateRoundTrip(e.date);
    }
  }

  /** Quoting and joining puts `","` between the cells and a quote at both
      ends. */
  lemma {:induction false} RowLineQuoted(row: seq<string>)
    requires |row| >= 1
    ensures RowLine(row) == "\"" + Join(row, "\",\"") + "\""
    decreases |row|
  {
    if |row| > 1 {
      RowLineQuoted(row[1..]);
      assert Quoted(row)[1..] == Quoted(row[1..]);
      var inner := Join(row[1..], "\",\"");
      calc {
        RowLine(row);
        Quote(row[0]) + "," + RowLine(row[1..]);
        "\"" + row[0] + "\"" + "," + ("\"" + inner + "\"");
        "\"" + (row[0] + "\",\"" + inner) + "\"";
      }
    }
  }

  /** So a data line whose cells hold no double quote gives its cells back:
      drop the outer quotes and split on `","`. */
  lemma RowLineReadsBack(row: seq<string>)
    requires |row| >= 1
    requires forall k :: 0 <= k < |row| ==> '"' !in row[k]
    ensures var line := RowLine(row);
      |line| >= 2 && line[0] == '"' && line[|line| - 1] == '"'
      && Split(line[1..|line| - 1], "\",\"") == row
  {
    RowLineQuoted(row);
    var inner := Join(row, "\",\"");
    assert RowLine(row)[1..|RowLine(row)| - 1] == inner;
    SplitJoin(row, "\",\"");
  }

  /** Embedded quotes are not doubled, so a cell holding `","` cannot be told
      from two cells: these two rows give the same line. */
  lemma QuotesAreNotEscaped()
    ensures ["a\",\"b"] != ["a", "b"]
    ensures RowLine(["a\",\"b"]) == RowLine(["a", "b"])
  {
    RowLineQuoted(["a\",\"b"]);
    RowLineQuoted(["a", "b"]);
    JoinCons("a", ["b"], "\",\"");
  }

  // ------------------------------------------------ splitting the content

  lemma NamesFreeOfNewline(m: int, w: int)
    requires 0 <= m < 12 && 0 <= w < 7
    ensures FreeOf(MonthName(m), '\n') && FreeOf(WeekdayName(w), '\n')
  {
  }

  lemma PaddedFreeOfNewline(n: nat, width: nat)
    ensures FreeOf(PadZeros(NatToString(n), width), '\n')
  {
    PaddedValue(n, width);
  }

  lemma DashedFreeOfNewline(y: string, m: string, dd: string)
    requires FreeOf(y, '\n') && FreeOf(m, '\n') && FreeOf(dd, '\n')
    ensures FreeOf(y + "-" + m + "-" + dd, '\n')
  {
    assert FreeOf("-", '\n');
    FreeOfConcat3(y, "-", m, '\n');
    FreeOfConcat3(y + "-" + m, "-", dd, '\n');
  }

  lemma IsoDateFreeOfNewline(d: Date)
    ensures FreeOf(IsoDate(d), '\n')
  {
    PaddedFreeOfNewline(EraYear(d.year), 4);
    PaddedFreeOfNewline(d.month + 1, 2);
    PaddedFreeOfNewline(d.day, 2);
    DashedFreeOfNewline(Year4(d), Month2(d), Day2(d));
  }

  lemma HeaderLineFreeOfNewline()
    ensures FreeOf(Join(Headers, ","), '\n')
  {
    var h := Headers;
    assert FreeOf(h[0], '\n') && FreeOf(h[1], '\n') && FreeOf(h[2], '\n');
    assert FreeOf(h[3], '\n') && FreeOf(h[4], '\n');
    assert FreeOf(",", '\n');
    JoinFreeOf(h, ",", '\n');
  }

  lemma {:induction false} JoinFreeOf(parts: seq<string>, sep: string, c: char)
    requires FreeOf(sep, c) && forall k :: 0 <= k < |parts| ==> FreeOf(parts[k], c)
    ensures FreeOf(Join(parts, sep), c)
    decreases |parts|
  {
    if |parts| > 1 {
      JoinFreeOf(parts[1..], sep, c);
      FreeOfConcat3(parts[0], sep, Join(parts[1..], sep), c);
    }
  }

  lemma {:induction false} QuotedFreeOf(row: seq<string>, c: char)
    requires c != '"' && forall k :: 0 <= k < |row| ==> FreeOf(row[k], c)
    ensures forall k :: 0 <= k < |row| ==> FreeOf(Quoted(row)[k], c)
    decreases |row|
  {
    if row != [] {
      QuotedFreeOf(row[1..], c);
      assert FreeOf("\"", c);
      FreeOfConcat3("\"", row[0], "\"", c);
    }
  }

  lemma RowLineFreeOfNewline(e: CalendarEvent)
    requires '\n' !in e.ruleName && (e.notes.Some? ==> '\n' !in e.notes.value)
    ensures FreeOf(RowLine(Row(e)), '\n')
  {
    var row := Row(e);
    NamesFreeOfNewline(e.date.month, Weekday(e.date));
    IsoDateFreeOfNewline(e.date);
    FreeOfIff(e.ruleName, '\n');
    FreeOfIff(NotesCell(e), '\n');
    QuotedFreeOf(row, '\n');
    assert FreeOf(",", '\n');
    JoinFreeOf(Quoted(row), ",", '\n');
  }

  /** The content splits on `\n` back into the header and one line per
      event, provided no name or notes text holds a line feed. */
  lemma CsvSplitsIntoLines(events: seq<CalendarEvent>)
    requires forall i :: 0 <= i < |events| ==>
      '\n' !in events[i].ruleName && (events[i].notes.Some? ==> '\n' !in events[i].notes.value)
    ensures Split(CsvContent(events), "\n") == CsvLines(events)
  {
    var lines := CsvLines(events);
    RowLinesAt(events);
    HeaderLineFreeOfNewline();
    forall k | 0 <= k < |lines| ensures "\n"[0] !in lines[k] {
      if k > 0 {
        RowLineFreeOfNewline(events[k - 1]);
      }
      FreeOfIff(lines[k], '\n');
    }
    SplitJoin(lines, "\n");
  }

  /** After `generateCSV` the rows are the caller's events, each once, in
      ascending date order, with events of the same date in their original
      relative order. */
  lemma CsvRowsInDateOrder(events: seq<CalendarEvent>)
    ensures var s := SortByDate(events);
      multiset(s) == multiset(events)
      && (forall i, j :: 0 <= i < j < |s| ==> DayNumber(s[i].date) <= DayNumber(s[j].date))
      && (forall i :: 0 <= i < |s| ==> CsvLines(s)[i + 1] == RowLine(Row(s[i])))
    ensures forall day :: WithKey(DateKey, SortByDate(events), day) == WithKey(DateKey, events, day)
  {
    var s := SortByDate(events);
    CsvLinesShape(s);
    forall day ensures WithKey(DateKey, s, day) == WithKey(DateKey, events, day) {
      SortByStable(DateKey, events, day);
    }
  }
}
