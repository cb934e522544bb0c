/**
 * lib/icsGenerator.ts: the iCalendar (RFC 5545) export. Every event becomes
 * one VEVENT with a one-day-before VALARM; text values are escaped after
 * section 3.3.11 of RFC 5545 (with the differences EscapeIsRfcTextIff
 * states), and lines are joined with CRLF (section 3.1).
 * The clock the generator reads once per event is a parameter.
 */
module IcsGenerator {
  import opened Wrappers
  import opened Text
  import opened Calendar
  import opened CalendarTypes
  import opened DateFormat

  // ------------------------------------------------------------ escaping

  /** `s.replace(/c/g, rep)`. */
  function ReplaceChar(s: string, c: char, rep: string): string {
    if s == [] then [] else (if s[0] == c then rep else [s[0]]) + ReplaceChar(s[1..], c, rep)
  }

  /** `escapeICSText`: backslash first, then `;`, `,`, line feed and carriage return. */
  function EscapeICSText(text: string): string {
    ReplaceChar(ReplaceChar(ReplaceChar(ReplaceChar(ReplaceChar(
      text, '\\', "\\\\"), ';', "\\;"), ',', "\\,"), '\n', "\\n"), '\r', "\\r")
  }

  /** What the chain of replacements does to one character. */
  function EscapeChar(c: char): string {
    if c == '\\' then "\\\\"
    else if c == ';' then "\\;"
    else if c == ',' then "\\,"
    else if c == '\n' then "\\n"
    else if c == '\r' then "\\r"
    else [c]
  }

  function EscapeEach(s: string): string {
    if s == [] then [] else EscapeChar(s[0]) + EscapeEach(s[1..])
  }

  lemma {:induction false} ReplaceCharConcat(a: string, b: string, c: char, rep: string)
    ensures ReplaceChar(a + b, c, rep) == ReplaceChar(a, c, rep) + ReplaceChar(b, c, rep)
    decreases |a|
  {
    if a != [] {
      assert (a + b)[0] == a[0] && (a + b)[1..] == a[1..] + b;
      var p := if a[0] == c then rep else [a[0]];
      assert ReplaceChar(a + b, c, rep) == p + ReplaceChar(a[1..] + b, c, rep);
      ReplaceCharConcat(a[1..], b, c, rep);
      assert ReplaceChar(a, c, rep) == p + ReplaceChar(a[1..], c, rep);
    } else {
      assert a + b == b;
    }
  }

  /** The chain distributes over concatenation: it works character by character. */
  lemma EscapeConcat(a: string, b: string)
    ensures EscapeICSText(a + b) == EscapeICSText(a) + EscapeICSText(b)
  {
    var a1, b1 := ReplaceChar(a, '\\', "\\\\"), ReplaceChar(b, '\\', "\\\\");
    ReplaceCharConcat(a, b, '\\', "\\\\");
    var a2, b2 := ReplaceChar(a1, ';', "\\;"), ReplaceChar(b1, ';', "\\;");
    ReplaceCharConcat(a1, b1, ';', "\\;");
    var a3, b3 := ReplaceChar(a2, ',', "\\,"), ReplaceChar(b2, ',', "\\,");
    ReplaceCharConcat(a2, b2, ',', "\\,");
    var a4, b4 := ReplaceChar(a3, '\n', "\\n"), ReplaceChar(b3, '\n', "\\n");
    ReplaceCharConcat(a3, b3, '\n', "\\n");
    ReplaceCharConcat(a4, b4, '\r', "\\r");
  }

  lemma ReplaceOne(c: char, x: char, rep: string)
    ensures ReplaceChar([c], x, rep) == if c == x then rep else [c]
  {
    assert [c][1..] == [];
  }

  lemma {:induction false} ReplaceCharAbsent(s: string, x: char, rep: string)
    requires x !in s
    ensures ReplaceChar(s, x, rep) == s
    decreases |s|
  {
    if s != [] {
      ReplaceCharAbsent(s[1..], x, rep);
      assert s == [s[0]] + s[1..];
    }
  }

  /** Later replacements never touch what earlier ones wrote. */
  lemma EscapeOneChar(c: char)
    ensures EscapeICSText([c]) == EscapeChar(c)
  {
    ReplaceOne(c, '\\', "\\\\");
    if c == '\\' {
      ReplaceCharAbsent("\\\\", ';', "\\;");
      ReplaceCharAbsent("\\\\", ',', "\\,");
      ReplaceCharAbsent("\\\\", '\n', "\\n");
      ReplaceCharAbsent("\\\\", '\r', "\\r");
    } else {
      ReplaceOne(c, ';', "\\;");
      if c == ';' {
        ReplaceCharAbsent("\\;", ',', "\\,");
        ReplaceCharAbsent("\\;", '\n', "\\n");
        ReplaceCharAbsent("\\;", '\r', "\\r");
      } else {
        ReplaceOne(c, ',', "\\,");
        if c == ',' {
          ReplaceCharAbsent("\\,", '\n', "\\n");
          ReplaceCharAbsent("\\,", '\r', "\\r");
        } else {
          ReplaceOne(c, '\n', "\\n");
          if c == '\n' {
            ReplaceCharAbsent("\\n", '\r', "\\r");
          } else {
            ReplaceOne(c, '\r', "\\r");
          }
        }
      }
    }
  }

  /** `escapeICSText` is the character-by-character escape. */
  lemma {:induction false} EscapeICSTextIsEach(s: string)
    ensures EscapeICSText(s) == EscapeEach(s)
    decreases |s|
  {
    if s != [] {
      assert s == [s[0]] + s[1..];
      EscapeConcat([s[0]], s[1..]);
      EscapeOneChar(s[0]);
      EscapeICSTextIsEach(s[1..]);
    }
  }

  function UnescapeChar(c: char): char {
    if c == 'n' then '\n' else if c == 'r' then '\r' else c
  }

  /** Reading an escaped TEXT value back: a backslash and the character after it
      stand for one character. */
  function Unescape(s: string): string {
    if s == [] then []
    else if s[0] == '\\' && |s| >= 2 then [UnescapeChar(s[1])] + Unescape(s[2..])
    else [s[0]] + Unescape(s[1..])
  }

  lemma UnescapeStep(c: char, rest: string)
    ensures Unescape(EscapeChar(c) + rest) == [c] + Unescape(rest)
  {
    var t := EscapeChar(c) + rest;
    if |EscapeChar(c)| == 2 {
      assert t[0] == '\\' && t[2..] == rest;
    } else {
      assert t[0] == c && t[1..] == rest;
    }
  }

  /** Because the backslash is escaped first, the escaping can be undone. */
  lemma {:induction false} UnescapeEscape(s: string)
    ensures Unescape(EscapeICSText(s)) == s
    decreases |s|
  {
    EscapeICSTextIsEach(s);
    if s != [] {
      UnescapeStep(s[0], EscapeEach(s[1..]));
      UnescapeEscape(s[1..]);
      EscapeICSTextIsEach(s[1..]);
    }
  }

  function SpecialCount(s: string): nat {
    if s == [] then 0
    else (if s[0] in {'\\', ';', ',', '\n', '\r'} then 1 else 0) + SpecialCount(s[1..])
  }

  /** Each of the five special characters grows by one character; nothing else changes length. */
  lemma {:induction false} EscapeLength(s: string)
    ensures |EscapeICSText(s)| == |s| + SpecialCount(s)
    decreases |s|
  {
    EscapeICSTextIsEach(s);
    if s != [] {
      EscapeLength(s[1..]);
      EscapeICSTextIsEach(s[1..]);
    }
  }

  /** The escaping's own shape: `;`, `,` and `\` occur only in the pairs
      `\\`, `\;`, `\,`, `\n` and `\r`, and there is no raw LF or CR. Weaker
      than RFC 5545 TEXT on two counts: it admits the pair `\r`, and it lets
      every other control character through (see IsRfcText). */
  predicate IsEscapedText(s: string)
    decreases |s|
  {
    if s == [] then true
    else if s[0] == '\\' then |s| >= 2 && s[1] in {'\\', ';', ',', 'n', 'r'} && IsEscapedText(s[2..])
    else s[0] !in {';', ',', '\n', '\r'} && IsEscapedText(s[1..])
  }

  lemma EscapedStep(c: char, rest: string)
    requires IsEscapedText(rest)
    ensures IsEscapedText(EscapeChar(c) + rest)
  {
    var t := EscapeChar(c) + rest;
    if |EscapeChar(c)| == 2 {
      assert t[2..] == rest;
    } else {
      assert t[1..] == rest;
    }
  }

  /** The output of `escapeICSText` has the escaping's shape, whatever the input. */
  lemma {:induction false} EscapeIsEscapedText(s: string)
    ensures IsEscapedText(EscapeICSText(s))
    decreases |s|
  {
    EscapeICSTextIsEach(s);
    if s != [] {
      EscapeIsEscapedText(s[1..]);
      EscapeICSTextIsEach(s[1..]);
      EscapedStep(s[0], EscapeEach(s[1..]));
    }
  }

  /** Text of that shape has no raw line feed or carriage return, and
      every `;` and `,` in it comes right after a backslash. */
  lemma {:induction false} EscapedTextFacts(s: string)
    requires IsEscapedText(s)
    ensures '\n' !in s && '\r' !in s
    ensures forall i :: 0 <= i < |s| && (s[i] == ';' || s[i] == ',') ==> i > 0 && s[i - 1] == '\\'
    decreases |s|
  {
    if s != [] {
      var n := if s[0] == '\\' then 2 else 1;
      var rest := s[n..];
      EscapedTextFacts(rest);
      assert s == s[..n] + rest;
      forall i | 0 <= i < |s| && (s[i] == ';' || s[i] == ',') ensures i > 0 && s[i - 1] == '\\' {
        if i >= n {
          assert s[i] == rest[i - n];
          if i - n > 0 {
            assert s[i - 1] == rest[i - n - 1];
          }
        }
      }
    }
  }

  /** So escaping removes every raw line break. */
  lemma EscapeHasNoLineBreaks(s: string)
    ensures '\n' !in EscapeICSText(s) && '\r' !in EscapeICSText(s)
  {
    EscapeIsEscapedText(s);
    EscapedTextFacts(EscapeICSText(s));
  }

  /** A character that section 3.3.11 of RFC 5545 lets a TEXT value hold
      unescaped: TSAFE-CHAR (space, HTAB, printable ASCII other than `"`, `,`,
      `:`, `;` and `\`, and every non-ASCII character), `:` or DQUOTE. */
  predicate RfcRawChar(c: char) {
    c == ' ' || c == '\t' || ('!' <= c <= '~' && c != ',' && c != ';' && c != '\\') || c as int >= 0x80
  }

  /** `text` of section 3.3.11 of RFC 5545: raw characters it admits and the
      ESCAPED-CHAR pairs `\\`, `\;`, `\,`, `\N` and `\n`. */
  predicate IsRfcText(s: string)
    decreases |s|
  {
    if s == [] then true
    else if s[0] == '\\' then |s| >= 2 && s[1] in {'\\', ';', ',', 'N', 'n'} && IsRfcText(s[2..])
    else RfcRawChar(s[0]) && IsRfcText(s[1..])
  }

  /** A character `escapeICSText` turns into RFC 5545 TEXT: one of the four it
      escapes as the RFC does, or one TEXT admits raw. Carriage return and the
      control characters other than HTAB and LF are not among them. */
  predicate RfcEscapable(c: char) {
    c == '\\' || c == ';' || c == ',' || c == '\n' || RfcRawChar(c)
  }

  lemma RfcStep(c: char, rest: string)
    ensures IsRfcText(EscapeChar(c) + rest) <==> RfcEscapable(c) && IsRfcText(rest)
  {
    var t := EscapeChar(c) + rest;
    if |EscapeChar(c)| == 2 {
      assert t[0] == '\\' && t[1] == EscapeChar(c)[1] && t[2..] == rest;
    } else {
      assert t[0] == c && t[1..] == rest;
    }
  }

  /** The output of `escapeICSText` is RFC 5545 TEXT exactly when every input
      character is escapable: no carriage return (which becomes `\r`, a pair
      the RFC lacks) and no control character other than HTAB and LF (which
      pass through raw). */
  lemma {:induction false} EscapeIsRfcTextIff(s: string)
    ensures IsRfcText(EscapeICSText(s)) <==> forall k :: 0 <= k < |s| ==> RfcEscapable(s[k])
    decreases |s|
  {
    EscapeICSTextIsEach(s);
    if s != [] {
      EscapeIsRfcTextIff(s[1..]);
      EscapeICSTextIsEach(s[1..]);
      RfcStep(s[0], EscapeEach(s[1..]));
      assert forall k :: 1 <= k < |s| ==> s[k] == s[1..][k - 1];
    }
  }

  // ---------------------------------------------------------- the feed

  type Hour = h: nat | h < 24
  type Minute = m: nat | m < 60
  type Second = s: nat | s < 60

  /** A reading of the local clock. */
  datatype Moment = Moment(date: Date, hour: Hour, minute: Minute, second: Second)

  /** `format(now, "yyyyMMdd'T'HHmmss'Z'")`. */
  function Timestamp(m: Moment): string {
    CompactDate(m.date) + "T" + PadZeros(NatToString(m.hour), 2)
      + PadZeros(NatToString(m.minute), 2) + PadZeros(NatToString(m.second), 2) + "Z"
  }

  /** The moment a `yyyyMMdd'T'HHmmss'Z'` text names, if it names one. */
  function ReadTimestamp(t: string): Option<Moment> {
    if |t| == 16 && t[8] == 'T' && t[15] == 'Z'
      && AllDigits(t[9..11]) && AllDigits(t[11..13]) && AllDigits(t[13..15]) then
      var d := ReadCompactDate(t[..8]);
      var h := DigitsValue(t[9..11]);
      var mi := DigitsValue(t[11..13]);
      var se := DigitsValue(t[13..15]);
      if d.Some? && h < 24 && mi < 60 && se < 60 then Some(Moment(d.value, h, mi, se)) else None
    else None
  }

  lemma StampSlices(c: string, h: string, mi: string, se: string)
    requires |c| == 8 && |h| == 2 && |mi| == 2 && |se| == 2
    ensures var t := c + "T" + h + mi + se + "Z";
      |t| == 16 && t[..8] == c && t[8] == 'T' && t[9..11] == h && t[11..13] == mi && t[13..15] == se && t[15] == 'Z'
  {
    var t := c + "T" + h + mi + se + "Z";
    assert t[..8] == c;
    assert t[9..11] == h;
    assert t[11..13] == mi;
    assert t[13..15] == se;
  }

  /** Reading a stamp splits it as eight, two, two and two characters. */
  lemma ReadStampParts(c: string, h: string, mi: string, se: string)
    requires |c| == 8 && |h| == 2 && |mi| == 2 && |se| == 2
    requires AllDigits(h) && AllDigits(mi) && AllDigits(se)
    ensures var d := ReadCompactDate(c);
      ReadTimestamp(c + "T" + h + mi + se + "Z") ==
        if d.Some? && DigitsValue(h) < 24 && DigitsValue(mi) < 60 && DigitsValue(se) < 60
        then Some(Moment(d.value, DigitsValue(h), DigitsValue(mi), DigitsValue(se))) else None
  {
    StampSlices(c, h, mi, se);
  }

  /** For the years `yyyy` prints in four digits, the stamp is 16
      characters and reads back as the moment it was made from. */
  lemma TimestampRoundTrip(m: Moment)
    requires 1 <= m.date.year <= 9999
    ensures |Timestamp(m)| == 16
    ensures ReadTimestamp(Timestamp(m)) == Some(m)
  {
    var c := CompactDate(m.date);
    var h := PadZeros(NatToString(m.hour), 2);
    var mi := PadZeros(NatToString(m.minute), 2);
    var se := PadZeros(NatToString(m.second), 2);
    CompactDateRoundTrip(m.date);
    PaddedNumeral(m.hour, 2);
    PaddedNumeral(m.minute, 2);
    PaddedNumeral(m.second, 2);
    ReadStampParts(c, h, mi, se);
    assert Timestamp(m) == c + "T" + h + mi + se + "Z";
  }

  /** The seven header lines, `${year}` printed as `yearText`. The last two
      are written as two literals each: the verifier does not look inside a
      string literal as long as their joined text. */
  function Header(yearText: string): seq<string> {
    ["BEGIN:VCALENDAR",
     "VERSION:2.0",
     "PRODID:-//Business Calendar Generator//EN",
     "CALSCALE:GREGORIAN",
     "METHOD:PUBLISH",
     "X-WR-CALNAME:" + "Business Calendar " + yearText,
     "X-WR-CALDESC:" + "Business events and important dates for " + yearText]
  }

  /** `if (event.notes)`: present and not the empty string. */
  predicate HasNotes(e: CalendarEvent) {
    e.notes.Some? && e.notes.value != ""
  }

  /** The first six lines of an event, from its id, `yyyyMMdd` date, stamp
      and escaped summary. */
  function HeadLines(id: string, dateStr: string, stamp: string, summary: string): seq<string> {
    ["BEGIN:VEVENT",
     "UID:" + id + "-" + dateStr + "@business-calendar.com",
     "DTSTAMP:" + stamp,
     "DTSTART;VALUE=DATE:" + dateStr,
     "DTEND;VALUE=DATE:" + dateStr,
     "SUMMARY:" + summary]
  }

  /** The fixed properties, the alarm with its reminder, and the end of the event. */
  function TailLines(summary: string): seq<string> {
    ["STATUS:CONFIRMED",
     "TRANSP:TRANSPARENT",
     "CATEGORIES:Business,Deadline",
     "BEGIN:VALARM",
     "TRIGGER:-P1D",
     "ACTION:DISPLAY",
     "DESCRIPTION:Reminder: " + summary + " is tomorrow",
     "END:VALARM",
     "END:VEVENT"]
  }

  function EventHead(e: CalendarEvent, now: Moment): seq<string> {
    HeadLines(e.id, CompactDate(e.date), Timestamp(now), EscapeICSText(e.ruleName))
  }

  /** The description line, pushed only when there are notes. */
  function EventDescription(e: CalendarEvent): seq<string> {
    if HasNotes(e) then ["DESCRIPTION:" + EscapeICSText(e.notes.value)] else []
  }

  function EventTail(e: CalendarEvent): seq<string> {
    TailLines(EscapeICSText(e.ruleName))
  }

  /** The lines one event pushes, from `BEGIN:VEVENT` to `END:VEVENT`. */
  function EventLines(e: CalendarEvent, now: Moment): seq<string> {
    EventHead(e, now) + EventDescription(e) + EventTail(e)
  }

  /** What one pass of the `forEach` pushes for the event at an index. */
  type Block = (CalendarEvent, nat) -> seq<string>

  /** The blocks of `events` in input order, the first at index `start`. */
  function Blocks(events: seq<CalendarEvent>, block: Block, start: nat): seq<string> {
    if events == [] then [] else block(events[0], start) + Blocks(events[1..], block, start + 1)
  }

  /** The generator's block: the clock is read once per event, `clock(i)`
      at the event with index `i`. */
  function EventBlock(clock: nat -> Moment): Block {
    (e: CalendarEvent, i: nat) => EventLines(e, clock(i))
  }

  /** Every line of the feed, header to `END:VCALENDAR`. */
  function IcsLines(events: seq<CalendarEvent>, year: int, clock: nat -> Moment): seq<string> {
    Header(IntToString(year)) + Blocks(events, EventBlock(clock), 0) + ["END:VCALENDAR"]
  }

  lemma {:induction false} BlocksConcat(a: seq<CalendarEvent>, b: seq<CalendarEvent>, block: Block, start: nat)
    ensures Blocks(a + b, block, start) == Blocks(a, block, start) + Blocks(b, block, start + |a|)
    decreases |a|
  {
    if a != [] {
      var c := a + b;
      assert c[0] == a[0] && c[1..] == a[1..] + b;
      assert Blocks(c, block, start) == block(a[0], start) + Blocks(a[1..] + b, block, start + 1);
      BlocksConcat(a[1..], b, block, start + 1);
      assert Blocks(a, block, start) == block(a[0], start) + Blocks(a[1..], block, start + 1);
    } else {
      assert a + b == b;
    }
  }

  /** Pushing the blocks one event at a time builds `Blocks`. */
  method PushBlocks(lines: seq<string>, events: seq<CalendarEvent>, block: Block) returns (r: seq<string>)
    ensures r == lines + Blocks(events, block, 0)
  {
    r := lines;
    var i := 0;
    while i < |events|
      invariant 0 <= i <= |events|
      invariant r == lines + Blocks(events[..i], block, 0)
    {
      BlocksConcat(events[..i], [events[i]], block, 0);
      assert events[..i + 1] == events[..i] + [events[i]];
      assert Blocks([events[i]], block, i) == block(events[i], i);
      r := r + block(events[i], i);
      i := i + 1;
    }
    assert events[..i] == events;
  }

  /** `generateICS`: push the header, one block per event, the footer, and
      join with CRLF. */
  method GenerateICS(events: seq<CalendarEvent>, year: int, clock: nat -> Moment) returns (ics: string)
    ensures ics == Join(IcsLines(events, year, clock), "\r\n")
  {
    var icsLines := PushBlocks(Header(IntToString(year)), events, EventBlock(clock));
    icsLines := icsLines + ["END:VCALENDAR"];
    ics := Join(icsLines, "\r\n");
  }

  // ----------------------------------------------------------- properties

  lemma CharsDiffer(x: string, y: string, i: nat)
    requires i < |x| && i < |y| && x[i] != y[i]
    ensures x != y
  {
  }

  lemma NotInMultiset(s: seq<string>, l: string)
    requires forall k :: 0 <= k < |s| ==> s[k] != l
    ensures multiset(s)[l] == 0
  {
    assert l !in s;
  }

  lemma OnceInMultiset(s: seq<string>, l: string, i: nat)
    requires i < |s| && s[i] == l
    requires forall k :: 0 <= k < |s| && k != i ==> s[k] != l
    ensures multiset(s)[l] == 1
  {
    assert s == s[..i] + [s[i]] + s[i + 1..];
    NotInMultiset(s[..i], l);
    NotInMultiset(s[i + 1..], l);
  }

  /** Which lines of the head are which markers. */
  lemma HeadMarkerLines(id: string, dateStr: string, stamp: string, summary: string)
    ensures var h := HeadLines(id, dateStr, stamp, summary);
      |h| == 6 && h[0] == "BEGIN:VEVENT"
      && (forall k :: 0 <= k < 6 && k != 0 ==> h[k] != "BEGIN:VEVENT")
      && (forall k :: 0 <= k < 6 ==> h[k] != "END:VEVENT")
      && (forall k :: 0 <= k < 6 ==> h[k] != "TRIGGER:-P1D")
  {
    var h := HeadLines(id, dateStr, stamp, summary);
    forall k | 0 <= k < 6
      ensures (k != 0 ==> h[k] != "BEGIN:VEVENT") && h[k] != "END:VEVENT" && h[k] != "TRIGGER:-P1D"
    {
      CharsDiffer(h[k], "END:VEVENT", 0);
      CharsDiffer(h[k], "TRIGGER:-P1D", 0);
      if k != 0 {
        CharsDiffer(h[k], "BEGIN:VEVENT", 0);
      }
    }
  }

  lemma HeadCounts(h: seq<string>)
    requires |h| == 6 && h[0] == "BEGIN:VEVENT"
    requires forall k :: 0 <= k < 6 && k != 0 ==> h[k] != "BEGIN:VEVENT"
    requires forall k :: 0 <= k < 6 ==> h[k] != "END:VEVENT"
    requires forall k :: 0 <= k < 6 ==> h[k] != "TRIGGER:-P1D"
    ensures multiset(h)["BEGIN:VEVENT"] == 1 && multiset(h)["END:VEVENT"] == 0 && multiset(h)["TRIGGER:-P1D"] == 0
  {
    OnceInMultiset(h, "BEGIN:VEVENT", 0);
    NotInMultiset(h, "END:VEVENT");
    NotInMultiset(h, "TRIGGER:-P1D");
  }

  lemma HeadLinesFacts(id: string, dateStr: string, stamp: string, summary: string)
    ensures var h := HeadLines(id, dateStr, stamp, summary);
      |h| == 6 && h[0] == "BEGIN:VEVENT"
      && h[1] == "UID:" + id + "-" + dateStr + "@business-calendar.com"
      && h[2] == "DTSTAMP:" + stamp
      && h[3] == "DTSTART;VALUE=DATE:" + dateStr
      && h[4] == "DTEND;VALUE=DATE:" + dateStr
      && h[5][..8] == "SUMMARY:" && h[5][8..] == summary
    ensures var m := multiset(HeadLines(id, dateStr, stamp, summary));
      m["BEGIN:VEVENT"] == 1 && m["END:VEVENT"] == 0 && m["TRIGGER:-P1D"] == 0
  {
    var h := HeadLines(id, dateStr, stamp, summary);
    assert h[5] == "SUMMARY:" + summary;
    HeadMarkerLines(id, dateStr, stamp, summary);
    HeadCounts(h);
  }

  /** Which lines of the tail are which markers. */
  lemma TailMarkerLines(summary: string)
    ensures var t := TailLines(summary);
      |t| == 9
      && (forall k :: 0 <= k < 9 ==> t[k] != "BEGIN:VEVENT")
      && (forall k :: 0 <= k < 9 && k != 8 ==> t[k] != "END:VEVENT")
      && (forall k :: 0 <= k < 9 && k != 4 ==> t[k] != "TRIGGER:-P1D")
  {
    var t := TailLines(summary);
    forall k | 0 <= k < 9
      ensures t[k] != "BEGIN:VEVENT" && (k != 8 ==> t[k] != "END:VEVENT") && (k != 4 ==> t[k] != "TRIGGER:-P1D")
    {
      CharsDiffer(t[k], "BEGIN:VEVENT", if k == 3 then 7 else 0);
      if k != 8 {
        CharsDiffer(t[k], "END:VEVENT", if k == 7 then 5 else 0);
      }
      if k != 4 {
        CharsDiffer(t[k], "TRIGGER:-P1D", if k == 1 then 2 else 0);
      }
    }
  }

  lemma TailCounts(t: seq<string>)
    requires |t| == 9 && t[4] == "TRIGGER:-P1D" && t[8] == "END:VEVENT"
    requires forall k :: 0 <= k < 9 ==> t[k] != "BEGIN:VEVENT"
    requires forall k :: 0 <= k < 9 && k != 8 ==> t[k] != "END:VEVENT"
    requires forall k :: 0 <= k < 9 && k != 4 ==> t[k] != "TRIGGER:-P1D"
    ensures multiset(t)["BEGIN:VEVENT"] == 0 && multiset(t)["END:VEVENT"] == 1 && multiset(t)["TRIGGER:-P1D"] == 1
  {
    NotInMultiset(t, "BEGIN:VEVENT");
    OnceInMultiset(t, "END:VEVENT", 8);
    OnceInMultiset(t, "TRIGGER:-P1D", 4);
  }

  lemma TailLinesText(summary: string)
    ensures var t := TailLines(summary);
      |t| == 9 && t[0] == "STATUS:CONFIRMED" && t[1] == "TRANSP:TRANSPARENT"
      && t[2] == "CATEGORIES:Business,Deadline"
      && t[3] == "BEGIN:VALARM" && t[4] == "TRIGGER:-P1D" && t[5] == "ACTION:DISPLAY"
      && t[6] == "DESCRIPTION:Reminder: " + summary + " is tomorrow"
      && t[7] == "END:VALARM" && t[8] == "END:VEVENT"
  {
  }

  /** The nine tail lines, as TailLinesText states them, close one VEVENT
      and hold one trigger. */
  lemma TailLinesFacts(summary: string)
    ensures var m := multiset(TailLines(summary));
      m["BEGIN:VEVENT"] == 0 && m["END:VEVENT"] == 1 && m["TRIGGER:-P1D"] == 1
  {
    TailLinesText(summary);
    TailMarkerLines(summary);
    TailCounts(TailLines(summary));
  }

  lemma DescriptionFacts(e: CalendarEvent)
    ensures var d := EventDescription(e);
      (|d| == 1 <==> HasNotes(e)) && (|d| == 0 <==> !HasNotes(e))
      && (HasNotes(e) ==> d[0][..12] == "DESCRIPTION:" && Unescape(d[0][12..]) == e.notes.value)
    ensures var m := multiset(EventDescription(e));
      m["BEGIN:VEVENT"] == 0 && m["END:VEVENT"] == 0 && m["TRIGGER:-P1D"] == 0
  {
    if HasNotes(e) {
      var d := EventDescription(e);
      var notes := EscapeICSText(e.notes.value);
      assert d[0] == "DESCRIPTION:" + notes;
      assert d[0][12..] == notes;
      UnescapeEscape(e.notes.value);
      CharsDiffer(d[0], "BEGIN:VEVENT", 0);
      CharsDiffer(d[0], "END:VEVENT", 0);
      CharsDiffer(d[0], "TRIGGER:-P1D", 0);
    }
  }

  lemma ThreeParts(a: seq<string>, b: seq<string>, c: seq<string>)
    ensures var s := a + b + c;
      |s| == |a| + |b| + |c|
      && (forall k :: 0 <= k < |a| ==> s[k] == a[k])
      && (forall k :: 0 <= k < |b| ==> s[|a| + k] == b[k])
      && (forall k :: 0 <= k < |c| ==> s[|a| + |b| + k] == c[k])
      && multiset(s) == multiset(a) + multiset(b) + multiset(c)
  {
  }

  /** One event's block: 15 lines, or 16 with a description; it opens with
      `BEGIN:VEVENT` and closes with `END:VEVENT`, the UID, `DTSTART` and
      `DTEND` carry the `yyyyMMdd` date, the alarm triggers a day before,
      and the summary and description read back as the event's name and
      notes. */
  lemma EventLinesShape(e: CalendarEvent, now: Moment)
    ensures var lines := EventLines(e, now);
      var n := |lines|;
      n == (if HasNotes(e) then 16 else 15)
      && lines[0] == "BEGIN:VEVENT" && lines[n - 1] == "END:VEVENT"
      && lines[1] == "UID:" + e.id + "-" + CompactDate(e.date) + "@business-calendar.com"
      && lines[2] == "DTSTAMP:" + Timestamp(now)
      && lines[3] == "DTSTART;VALUE=DATE:" + CompactDate(e.date)
      && lines[4] == "DTEND;VALUE=DATE:" + CompactDate(e.date)
      && lines[n - 9] == "STATUS:CONFIRMED" && lines[n - 8] == "TRANSP:TRANSPARENT"
      && lines[n - 7] == "CATEGORIES:Business,Deadline"
      && lines[n - 6] == "BEGIN:VALARM" && lines[n - 5] == "TRIGGER:-P1D" && lines[n - 4] == "ACTION:DISPLAY"
      && lines[n - 3] == "DESCRIPTION:Reminder: " + EscapeICSText(e.ruleName) + " is tomorrow"
      && lines[n - 2] == "END:VALARM"
      && OccursAt(lines[5], "SUMMARY:", 0) && Unescape(lines[5][8..]) == e.ruleName
      && (HasNotes(e) ==> OccursAt(lines[6], "DESCRIPTION:", 0) && Unescape(lines[6][12..]) == e.notes.value)
  {
    var summary := EscapeICSText(e.ruleName);
    var h, d, t := EventHead(e, now), EventDescription(e), EventTail(e);
    HeadLinesFacts(e.id, CompactDate(e.date), Timestamp(now), summary);
    UnescapeEscape(e.ruleName);
    DescriptionFacts(e);
    TailLinesText(summary);
    ThreeParts(h, d, t);
  }

  /** Each of `BEGIN:VEVENT`, `END:VEVENT` and `TRIGGER:-P1D` occurs exactly
      once in one event's block. */
  lemma EventLinesMarkers(e: CalendarEvent, now: Moment)
    ensures var m := multiset(EventLines(e, now));
      m["BEGIN:VEVENT"] == 1 && m["END:VEVENT"] == 1 && m["TRIGGER:-P1D"] == 1
  {
    var summary := EscapeICSText(e.ruleName);
    var h, d, t := EventHead(e, now), EventDescription(e), EventTail(e);
    HeadLinesFacts(e.id, CompactDate(e.date), Timestamp(now), summary);
    DescriptionFacts(e);
    TailLinesFacts(summary);
    assert multiset(h + d + t) == multiset(h) + multiset(d) + multiset(t);
  }

  /** Each event, in input order, contributes exactly one VEVENT with one alarm. */
  lemma BlocksMarkers(events: seq<CalendarEvent>, clock: nat -> Moment, start: nat)
    ensures var m := multiset(Blocks(events, EventBlock(clock), start));
      m["BEGIN:VEVENT"] == |events| && m["END:VEVENT"] == |events| && m["TRIGGER:-P1D"] == |events|
  {
    forall e: CalendarEvent, i: nat ensures MarksOneEvent(EventBlock(clock)(e, i)) {
      EventLinesMarkers(e, clock(i));
    }
    BlocksMarkersFor(events, EventBlock(clock), start);
  }

  /** One `BEGIN:VEVENT`, one `END:VEVENT` and one `TRIGGER:-P1D`. */
  predicate MarksOneEvent(lines: seq<string>) {
    var m := multiset(lines);
    m["BEGIN:VEVENT"] == 1 && m["END:VEVENT"] == 1 && m["TRIGGER:-P1D"] == 1
  }

  /** The markers of any block that marks one event per pass. */
  lemma {:induction false} BlocksMarkersFor(events: seq<CalendarEvent>, block: Block, start: nat)
    requires forall e: CalendarEvent, i: nat :: MarksOneEvent(block(e, i))
    ensures var m := multiset(Blocks(events, block, start));
      m["BEGIN:VEVENT"] == |events| && m["END:VEVENT"] == |events| && m["TRIGGER:-P1D"] == |events|
    decreases |events|
  {
    if events != [] {
      var first := block(events[0], start);
      var rest := Blocks(events[1..], block, start + 1);
      assert Blocks(events, block, start) == first + rest;
      BlocksMarkersFor(events[1..], block, start + 1);
      MarkerCountsAdd(first, rest, |events| - 1);
    }
  }

  /** Marker counts add up over a concatenation. */
  lemma MarkerCountsAdd(a: seq<string>, b: seq<string>, n: nat)
    requires MarksOneEvent(a)
    requires var m := multiset(b); m["BEGIN:VEVENT"] == n && m["END:VEVENT"] == n && m["TRIGGER:-P1D"] == n
    ensures var m := multiset(a + b);
      m["BEGIN:VEVENT"] == n + 1 && m["END:VEVENT"] == n + 1 && m["TRIGGER:-P1D"] == n + 1
  {
    assert multiset(a + b) == multiset(a) + multiset(b);
  }

  // ------------------------------------------------------- the whole feed

  /** How many of `events` carry notes, so a description line. */
  function NotesCount(events: seq<CalendarEvent>): (n: nat)
    ensures n <= |events|
  {
    if events == [] then 0 else (if HasNotes(events[0]) then 1 else 0) + NotesCount(events[1..])
  }

  /** Fifteen lines per event, and one more for each event with notes. */
  lemma {:induction false} BlocksLength(events: seq<CalendarEvent>, clock: nat -> Moment, start: nat)
    ensures |Blocks(events, EventBlock(clock), start)| == 15 * |events| + NotesCount(events)
    decreases |events|
  {
    if events != [] {
      EventLinesShape(events[0], clock(start));
      BlocksLength(events[1..], clock, start + 1);
    }
  }

  lemma HeaderMarkerLines(yearText: string)
    ensures var h := Header(yearText);
      |h| == 7
      && (forall k :: 0 <= k < 7 ==> h[k] != "BEGIN:VEVENT")
      && (forall k :: 0 <= k < 7 ==> h[k] != "END:VEVENT")
      && (forall k :: 0 <= k < 7 ==> h[k] != "TRIGGER:-P1D")
  {
    var h := Header(yearText);
    forall k | 0 <= k < 7
      ensures h[k] != "BEGIN:VEVENT" && h[k] != "END:VEVENT" && h[k] != "TRIGGER:-P1D"
    {
      CharsDiffer(h[k], "BEGIN:VEVENT", if k == 0 then 7 else 0);
      CharsDiffer(h[k], "END:VEVENT", 0);
      CharsDiffer(h[k], "TRIGGER:-P1D", 0);
    }
  }

  lemma HeaderCounts(h: seq<string>)
    requires forall k :: 0 <= k < |h| ==> h[k] != "BEGIN:VEVENT" && h[k] != "END:VEVENT" && h[k] != "TRIGGER:-P1D"
    ensures multiset(h)["BEGIN:VEVENT"] == 0 && multiset(h)["END:VEVENT"] == 0 && multiset(h)["TRIGGER:-P1D"] == 0
  {
    NotInMultiset(h, "BEGIN:VEVENT");
    NotInMultiset(h, "END:VEVENT");
    NotInMultiset(h, "TRIGGER:-P1D");
  }

  lemma SumOfParts(h: seq<string>, b: seq<string>, f: seq<string>, n: nat)
    requires multiset(h)["BEGIN:VEVENT"] == 0 && multiset(h)["END:VEVENT"] == 0 && multiset(h)["TRIGGER:-P1D"] == 0
    requires multiset(f)["BEGIN:VEVENT"] == 0 && multiset(f)["END:VEVENT"] == 0 && multiset(f)["TRIGGER:-P1D"] == 0
    requires multiset(b)["BEGIN:VEVENT"] == n && multiset(b)["END:VEVENT"] == n && multiset(b)["TRIGGER:-P1D"] == n
    ensures var m := multiset(h + b + f);
      m["BEGIN:VEVENT"] == n && m["END:VEVENT"] == n && m["TRIGGER:-P1D"] == n
  {
    assert multiset(h + b + f) == multiset(h) + multiset(b) + multiset(f);
  }

  lemma FeedLayout(h: seq<string>, b: seq<string>, f: seq<string>)
    requires |h| == 7 && f == ["END:VCALENDAR"]
    ensures var s := h + b + f;
      |s| == 8 + |b| && s[..7] == h && s[|s| - 1] == "END:VCALENDAR"
  {
    assert (h + b + f)[..7] == h;
  }

  /** The feed opens with the seven header lines naming the year, closes
      with `END:VCALENDAR`, and holds 15 lines per event plus one per event
      with notes in between. */
  lemma IcsLinesShape(events: seq<CalendarEvent>, year: int, clock: nat -> Moment)
    ensures var lines := IcsLines(events, year, clock);
      |lines| == 8 + 15 * |events| + NotesCount(events)
      && lines[..7] == Header(IntToString(year)) && lines[0] == "BEGIN:VCALENDAR"
      && lines[|lines| - 1] == "END:VCALENDAR"
  {
    var h, b := Header(IntToString(year)), Blocks(events, EventBlock(clock), 0);
    BlocksLength(events, clock, 0);
    FeedLayout(h, b, ["END:VCALENDAR"]);
  }

  /** ... with exactly one `BEGIN:VEVENT`, one `END:VEVENT` and one alarm
      trigger per event. */
  lemma IcsLinesMarkers(events: seq<CalendarEvent>, year: int, clock: nat -> Moment)
    ensures var m := multiset(IcsLines(events, year, clock));
      m["BEGIN:VEVENT"] == |events| && m["END:VEVENT"] == |events| && m["TRIGGER:-P1D"] == |events|
  {
    var h, b, f := Header(IntToString(year)), Blocks(events, EventBlock(clock), 0), ["END:VCALENDAR"];
    BlocksMarkers(events, clock, 0);
    HeaderMarkerLines(IntToString(year));
    HeaderCounts(h);
    FooterCounts(f);
    SumOfParts(h, b, f, |events|);
  }

  /** The text opens with `BEGIN:VCALENDAR` and CRLF and ends with
      `END:VCALENDAR`, with no CRLF after it. */
  lemma IcsTextEnds(events: seq<CalendarEvent>, year: int, clock: nat -> Moment)
    ensures var ics := Join(IcsLines(events, year, clock), "\r\n");
      |ics| >= 30 && ics[..17] == "BEGIN:VCALENDAR\r\n" && ics[|ics| - 13..] == "END:VCALENDAR"
  {
    var lines := IcsLines(events, year, clock);
    IcsLinesShape(events, year, clock);
    assert lines[0] == "BEGIN:VCALENDAR";
    JoinCons(lines[0], lines[1..], "\r\n");
    assert [lines[0]] + lines[1..] == lines;
    JoinEnds(lines, "\r\n");
  }

  lemma FooterCounts(f: seq<string>)
    requires f == ["END:VCALENDAR"]
    ensures multiset(f)["BEGIN:VEVENT"] == 0 && multiset(f)["END:VEVENT"] == 0 && multiset(f)["TRIGGER:-P1D"] == 0
  {
    CharsDiffer(f[0], "BEGIN:VEVENT", 0);
    CharsDiffer(f[0], "END:VEVENT", 5);
    CharsDiffer(f[0], "TRIGGER:-P1D", 0);
    HeaderCounts(f);
  }

  // ------------------------------------------------- splitting the feed

  /** No line holds a carriage return. */
  predicate NoCarriageReturns(lines: seq<string>) {
    forall k :: 0 <= k < |lines| ==> FreeOf(lines[k], '\r')
  }

  lemma PaddedFreeOfCR(n: nat, width: nat)
    ensures FreeOf(PadZeros(NatToString(n), width), '\r')
  {
    PaddedValue(n, width);
  }

  lemma DateFreeOfCR(d: Date)
    ensures FreeOf(CompactDate(d), '\r')
  {
    PaddedFreeOfCR(EraYear(d.year), 4);
    PaddedFreeOfCR(d.month + 1, 2);
    PaddedFreeOfCR(d.day, 2);
    FreeOfConcat3(Year4(d), Month2(d), Day2(d), '\r');
  }

  lemma StampPartsFreeOfCR(date: string, hh: string, mm: string, ss: string)
    requires FreeOf(date, '\r') && FreeOf(hh, '\r') && FreeOf(mm, '\r') && FreeOf(ss, '\r')
    ensures FreeOf(date + "T" + hh + mm + ss + "Z", '\r')
  {
    assert FreeOf("T", '\r') && FreeOf("Z", '\r');
    FreeOfConcat3(date, "T", hh, '\r');
    FreeOfConcat3(date + "T" + hh, mm, ss, '\r');
    FreeOfConcat(date + "T" + hh + mm + ss, "Z", '\r');
  }

  lemma StampFreeOfCR(m: Moment)
    ensures FreeOf(Timestamp(m), '\r')
  {
    DateFreeOfCR(m.date);
    PaddedFreeOfCR(m.hour, 2);
    PaddedFreeOfCR(m.minute, 2);
    PaddedFreeOfCR(m.second, 2);
    StampPartsFreeOfCR(CompactDate(m.date), PadZeros(NatToString(m.hour), 2),
      PadZeros(NatToString(m.minute), 2), PadZeros(NatToString(m.second), 2));
  }

  lemma YearTextFreeOfCR(year: int)
    ensures FreeOf(IntToString(year), '\r')
  {
    var n: nat := if year < 0 then -year else year;
    assert FreeOf(NatToString(n), '\r');
    if year < 0 {
      assert FreeOf("-", '\r');
      FreeOfConcat("-", NatToString(n), '\r');
    }
  }

  lemma HeaderTextsFreeOfCR()
    ensures FreeOf("BEGIN:VCALENDAR", '\r') && FreeOf("VERSION:2.0", '\r') && FreeOf("CALSCALE:GREGORIAN", '\r')
    ensures FreeOf("PRODID:-//Business Calendar Generator//EN", '\r') && FreeOf("METHOD:PUBLISH", '\r')
    ensures FreeOf("X-WR-CALNAME:", '\r') && FreeOf("Business Calendar ", '\r') && FreeOf("X-WR-CALDESC:", '\r')
    ensures FreeOf("Business events and important dates for ", '\r')
  {
  }

  lemma HeaderHasNoCarriageReturns(yearText: string)
    requires FreeOf(yearText, '\r')
    ensures NoCarriageReturns(Header(yearText))
  {
    HeaderTextsFreeOfCR();
    FreeOfConcat3("X-WR-CALNAME:", "Business Calendar ", yearText, '\r');
    FreeOfConcat3("X-WR-CALDESC:", "Business events and important dates for ", yearText, '\r');
  }

  lemma HeadTextsFreeOfCR()
    ensures FreeOf("BEGIN:VEVENT", '\r') && FreeOf("UID:", '\r') && FreeOf("-", '\r')
    ensures FreeOf("@business-calendar.com", '\r') && FreeOf("DTSTAMP:", '\r')
    ensures FreeOf("DTSTART;VALUE=DATE:", '\r') && FreeOf("DTEND;VALUE=DATE:", '\r') && FreeOf("SUMMARY:", '\r')
  {
  }

  lemma HeadHasNoCarriageReturns(id: string, dateStr: string, stamp: string, summary: string)
    requires FreeOf(id, '\r') && FreeOf(dateStr, '\r') && FreeOf(stamp, '\r') && FreeOf(summary, '\r')
    ensures NoCarriageReturns(HeadLines(id, dateStr, stamp, summary))
  {
    HeadTextsFreeOfCR();
    FreeOfConcat3("UID:", id, "-", '\r');
    FreeOfConcat3("UID:" + id + "-", dateStr, "@business-calendar.com", '\r');
    FreeOfConcat("DTSTAMP:", stamp, '\r');
    FreeOfConcat("DTSTART;VALUE=DATE:", dateStr, '\r');
    FreeOfConcat("DTEND;VALUE=DATE:", dateStr, '\r');
    FreeOfConcat("SUMMARY:", summary, '\r');
  }

  lemma TailTextsFreeOfCR()
    ensures FreeOf("STATUS:CONFIRMED", '\r') && FreeOf("TRANSP:TRANSPARENT", '\r')
    ensures FreeOf("CATEGORIES:Business,Deadline", '\r') && FreeOf("BEGIN:VALARM", '\r')
    ensures FreeOf("TRIGGER:-P1D", '\r') && FreeOf("ACTION:DISPLAY", '\r') && FreeOf("DESCRIPTION:Reminder: ", '\r')
    ensures FreeOf(" is tomorrow", '\r') && FreeOf("END:VALARM", '\r') && FreeOf("END:VEVENT", '\r')
    ensures FreeOf("DESCRIPTION:", '\r') && FreeOf("END:VCALENDAR", '\r')
  {
  }

  lemma TailHasNoCarriageReturns(summary: string)
    requires FreeOf(summary, '\r')
    ensures NoCarriageReturns(TailLines(summary))
  {
    TailTextsFreeOfCR();
    FreeOfConcat3("DESCRIPTION:Reminder: ", summary, " is tomorrow", '\r');
  }

  lemma NoCarriageReturnsConcat(a: seq<string>, b: seq<string>)
    requires NoCarriageReturns(a) && NoCarriageReturns(b)
    ensures NoCarriageReturns(a + b)
  {
    forall k | 0 <= k < |a + b| ensures FreeOf((a + b)[k], '\r') {
      if k >= |a| {
        assert (a + b)[k] == b[k - |a|];
      }
    }
  }

  lemma EscapedFreeOfCR(s: string)
    ensures FreeOf(EscapeICSText(s), '\r')
  {
    EscapeHasNoLineBreaks(s);
    FreeOfIff(EscapeICSText(s), '\r');
  }

  lemma EventHasNoCarriageReturns(e: CalendarEvent, now: Moment)
    requires FreeOf(e.id, '\r')
    ensures NoCarriageReturns(EventLines(e, now))
  {
    var summary := EscapeICSText(e.ruleName);
    var h, d, t := EventHead(e, now), EventDescription(e), EventTail(e);
    DateFreeOfCR(e.date);
    StampFreeOfCR(now);
    EscapedFreeOfCR(e.ruleName);
    HeadHasNoCarriageReturns(e.id, CompactDate(e.date), Timestamp(now), summary);
    TailHasNoCarriageReturns(summary);
    if HasNotes(e) {
      EscapedFreeOfCR(e.notes.value);
      TailTextsFreeOfCR();
      FreeOfConcat("DESCRIPTION:", EscapeICSText(e.notes.value), '\r');
    }
    NoCarriageReturnsConcat(h, d);
    NoCarriageReturnsConcat(h + d, t);
  }

  lemma {:induction false} BlocksHaveNoCarriageReturns(events: seq<CalendarEvent>, clock: nat -> Moment, start: nat)
    requires forall i :: 0 <= i < |events| ==> '\r' !in events[i].id
    ensures NoCarriageReturns(Blocks(events, EventBlock(clock), start))
    decreases |events|
  {
    if events != [] {
      FreeOfIff(events[0].id, '\r');
      EventHasNoCarriageReturns(events[0], clock(start));
      BlocksHaveNoCarriageReturns(events[1..], clock, start + 1);
      NoCarriageReturnsConcat(EventLines(events[0], clock(start)), Blocks(events[1..], EventBlock(clock), start + 1));
    }
  }

  /** The text `generateICS` returns splits on CRLF back into its lines,
      provided no event id holds a carriage return: the only other text in
      the feed is escaped, printed digits or fixed. */
  lemma IcsSplitsIntoLines(events: seq<CalendarEvent>, year: int, clock: nat -> Moment)
    requires forall i :: 0 <= i < |events| ==> '\r' !in events[i].id
    ensures Split(Join(IcsLines(events, year, clock), "\r\n"), "\r\n") == IcsLines(events, year, clock)
  {
    var lines := IcsLines(events, year, clock);
    var h, b := Header(IntToString(year)), Blocks(events, EventBlock(clock), 0);
    YearTextFreeOfCR(year);
    HeaderHasNoCarriageReturns(IntToString(year));
    BlocksHaveNoCarriageReturns(events, clock, 0);
    NoCarriageReturnsConcat(h, b);
    TailTextsFreeOfCR();
    NoCarriageReturnsConcat(h + b, ["END:VCALENDAR"]);
    forall k | 0 <= k < |lines| ensures "\r\n"[0] !in lines[k] {
      FreeOfIff(lines[k], '\r');
    }
    SplitJoin(lines, "\r\n");
  }
}
