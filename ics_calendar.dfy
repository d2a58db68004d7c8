/** `generateICS`: an iCalendar object (RFC 5545) with one VEVENT, as content lines
    joined by CRLF. The two clock readings the script takes (`new Date()` for the
    DTSTAMP and `Date.now()` for the UID) are parameters. */
module IcsCalendar {
  import opened JsText
  import opened IcsText

  /** The fields `generateICS` destructures from its argument. */
  datatype CalendarEvent = CalendarEvent(summary: string, description: string, location: string, start: string, end: string)

  const Crlf := "\r\n"
  const UidDomain := "@smilebrightdental.com"

  /** `iso.replace(/[-:]/g, '').split('.')[0].concat('Z')`; removing every dash and
      then every colon removes the same characters as the one-pass character class. */
  function DtStamp(iso: string): string {
    Split(ReplaceAll(ReplaceAll(iso, '-', ""), ':', ""), '.')[0] + "Z"
  }

  /** The fourteen entries of the array literal, before `filter(Boolean)`, for the
      UID stem, the DTSTAMP value, the two bounds and the escaped SUMMARY, LOCATION
      and DESCRIPTION values. */
  function Entries(uid: string, stamp: string, start: string, end: string,
                   summary: string, location: string, description: string): seq<string> {
    [ "BEGIN:VCALENDAR", "VERSION:2.0", "PRODID:-//SmileBright Dental Clinic//EN", "CALSCALE:GREGORIAN",
      "BEGIN:VEVENT", "UID:" + uid + UidDomain, "DTSTAMP:" + stamp,
      if start != "" then "DTSTART:" + start else "",
      if end != "" then "DTEND:" + end else "",
      "SUMMARY:" + summary, "LOCATION:" + location, "DESCRIPTION:" + description,
      "END:VEVENT", "END:VCALENDAR" ]
  }

  function RawLines(ev: CalendarEvent, uid: string, stamp: string): seq<string> {
    Entries(uid, stamp, ev.start, ev.end,
      EscapeIcs(Some(ev.summary)), EscapeIcs(Some(ev.location)), EscapeIcs(Some(ev.description)))
  }

  /** `filter(Boolean)` on an array of strings: the empty ones are dropped. */
  function DropEmpty(lines: seq<string>): (r: seq<string>)
    ensures |r| <= |lines|
  {
    if lines == [] then [] else (if lines[0] == "" then [] else [lines[0]]) + DropEmpty(lines[1..])
  }

  /** The content lines of the document. */
  function IcsLines(ev: CalendarEvent, uid: string, stamp: string): seq<string> {
    DropEmpty(RawLines(ev, uid, stamp))
  }

  /** The document for a given UID stem and DTSTAMP value. */
  function IcsDocument(ev: CalendarEvent, uid: string, stamp: string): string {
    Join(IcsLines(ev, uid, stamp), Crlf)
  }

  /** `generateICS(ev)` at the instant whose `Date.now()` is `nowMillis` and whose
      `toISOString()` is `isoNow`. */
  function GenerateIcs(ev: CalendarEvent, nowMillis: nat, isoNow: string): string {
    IcsDocument(ev, NatToString(nowMillis), DtStamp(isoNow))
  }

  // ---- DTSTAMP ----

  /** Removing every `c` from `a c b c d` where only the two marked ones are `c`. */
  lemma RemovePair(a: string, c: char, b: string, d: string)
    requires c !in a && c !in b && c !in d
    ensures ReplaceAll(a + [c] + b + [c] + d, c, "") == a + b + d
  {
    RemoveBefore(a + [c] + b, c, d);
    ReplaceAllSplice(a, c, b);
  }

  lemma RemoveBefore(x: string, c: char, d: string)
    requires c !in d
    ensures ReplaceAll(x + [c] + d, c, "") == ReplaceAll(x, c, "") + d
  {
    ReplaceAllConcat(x + [c], d, c, "");
    ReplaceAllConcat(x, [c], c, "");
    ReplaceAllOne(c, c, "");
    ReplaceAllAbsent(d, c, "");
  }

  /** Removing one character keeps every other one out. */
  lemma {:induction false} RemoveKeepsFree(s: string, c: char, e: char)
    requires e !in s
    ensures e !in ReplaceAll(s, c, "")
  {
    if s != [] {
      RemoveKeepsFree(s[1..], c, e);
    }
  }

  /** The first piece of `(a + c + b).split(c)` is `a` when `a` holds no `c`. */
  lemma SplitHead(a: string, c: char, b: string)
    requires c !in a
    ensures Split(a + [c] + b, c)[0] == a
  {
    SplitCons(a, c, b);
  }

  lemma DigitsFree(s: string, c: char)
    requires AllDigits(s) && !IsDigit(c)
    ensures c !in s
  {
    forall k | 0 <= k < |s| ensures s[k] != c {
    }
  }

  /** The groups of `YYYY-MM-DDTHH:mm:ss.sssZ` hold none of the separators. */
  lemma IsoGroupFree(g: string)
    requires AllDigits(g)
    ensures '-' !in g && ':' !in g && '.' !in g && '\n' !in g
  {
    DigitsFree(g, '-');
    DigitsFree(g, ':');
    DigitsFree(g, '.');
    DigitsFree(g, '\n');
  }

  /** The dash pass leaves the part after the date alone. */
  lemma StampDashPass(date: string, rest: string)
    requires '-' !in rest
    ensures ReplaceAll(date + rest, '-', "") == ReplaceAll(date, '-', "") + rest
  {
    ReplaceAllConcat(date, rest, '-', "");
    ReplaceAllAbsent(rest, '-', "");
  }

  lemma RemoveCons(c0: char, x: string, c: char)
    requires c0 != c
    ensures ReplaceAll([c0] + x, c, "") == [c0] + ReplaceAll(x, c, "")
  {
    assert ([c0] + x)[1..] == x;
  }

  /** The colon pass only touches the time. */
  lemma StampColonPass(d: string, time: string, r2: string)
    requires ':' !in d && ':' !in r2
    ensures ReplaceAll(d + ("T" + time + r2), ':', "") == d + ("T" + ReplaceAll(time, ':', "") + r2)
  {
    ReplaceAllConcat(d, "T" + time + r2, ':', "");
    ReplaceAllConcat("T" + time, r2, ':', "");
    RemoveCons('T', time, ':');
    ReplaceAllAbsent(d, ':', "");
    ReplaceAllAbsent(r2, ':', "");
  }

  /** The stamp of `date T time . ms Z`: the date without dashes, `T`, the time
      without colons and `Z`; the fraction after the dot is dropped. */
  lemma DtStampParts(date: string, time: string, ms: string)
    requires '-' !in time && '-' !in ms && ':' !in date && ':' !in ms && '.' !in date && '.' !in time
    ensures DtStamp(date + "T" + time + "." + ms + "Z")
      == ReplaceAll(date, '-', "") + "T" + ReplaceAll(time, ':', "") + "Z"
  {
    var d, tc := ReplaceAll(date, '-', ""), ReplaceAll(time, ':', "");
    StampPasses(date, time, ms);
    RemoveKeepsFree(date, '-', '.');
    RemoveKeepsFree(time, ':', '.');
    StampFraction(d, tc, ms);
  }

  /** The dash and colon passes on `date T time . ms Z`. */
  lemma StampPasses(date: string, time: string, ms: string)
    requires '-' !in time && '-' !in ms && ':' !in date && ':' !in ms
    ensures ReplaceAll(ReplaceAll(date + "T" + time + "." + ms + "Z", '-', ""), ':', "")
      == ReplaceAll(date, '-', "") + ("T" + ReplaceAll(time, ':', "") + ("." + ms + "Z"))
  {
    var r2 := "." + ms + "Z";
    var rest := "T" + time + r2;
    assert date + "T" + time + "." + ms + "Z" == date + rest;
    StampDashPass(date, rest);
    RemoveKeepsFree(date, '-', ':');
    StampColonPass(ReplaceAll(date, '-', ""), time, r2);
  }

  /** Everything after the first `.` is dropped. */
  lemma StampFraction(d: string, tc: string, ms: string)
    requires '.' !in d && '.' !in tc
    ensures Split(d + ("T" + tc + ("." + ms + "Z")), '.')[0] == d + "T" + tc
  {
    assert d + ("T" + tc + ("." + ms + "Z")) == (d + "T" + tc) + ['.'] + (ms + "Z");
    SplitHead(d + "T" + tc, '.', ms + "Z");
  }

  /** For a `toISOString()` value `YYYY-MM-DDTHH:mm:ss.sssZ` the stamp is the UTC
      date-time form `YYYYMMDDTHHmmssZ` of section 3.3.5 of RFC 5545 (the
      milliseconds are dropped). */
  lemma DtStampOfIso(y: string, mo: string, d: string, h: string, mi: string, s: string, ms: string)
    requires AllDigits(y) && AllDigits(mo) && AllDigits(d) && AllDigits(h)
    requires AllDigits(mi) && AllDigits(s) && AllDigits(ms)
    ensures DtStamp((y + "-" + mo + "-" + d) + "T" + (h + ":" + mi + ":" + s) + "." + ms + "Z")
      == (y + mo + d) + "T" + (h + mi + s) + "Z"
  {
    IsoGroupFree(y); IsoGroupFree(mo); IsoGroupFree(d); IsoGroupFree(h);
    IsoGroupFree(mi); IsoGroupFree(s); IsoGroupFree(ms);
    DtStampParts(y + "-" + mo + "-" + d, h + ":" + mi + ":" + s, ms);
    RemovePair(y, '-', mo, d);
    RemovePair(h, ':', mi, s);
  }

  // ---- the lines ----

  /** `line` starts with `prefix` (a property line such as `DTSTART:`). */
  predicate IsLineOf(line: string, prefix: string) {
    |prefix| <= |line| && line[..|prefix|] == prefix
  }

  /** A `DTSTART:` (or `DTEND:`) line for a non-empty value, nothing otherwise. */
  function OptionalLine(prefix: string, value: string): seq<string> {
    if value != "" then [prefix + value] else []
  }

  function HeadLines(uid: string, stamp: string): seq<string> {
    [ "BEGIN:VCALENDAR", "VERSION:2.0", "PRODID:-//SmileBright Dental Clinic//EN", "CALSCALE:GREGORIAN",
      "BEGIN:VEVENT", "UID:" + uid + UidDomain, "DTSTAMP:" + stamp ]
  }

  function TailLines(summary: string, location: string, description: string): seq<string> {
    [ "SUMMARY:" + summary, "LOCATION:" + location, "DESCRIPTION:" + description, "END:VEVENT", "END:VCALENDAR" ]
  }

  lemma {:induction false} DropEmptyConcat(a: seq<string>, b: seq<string>)
    ensures DropEmpty(a + b) == DropEmpty(a) + DropEmpty(b)
  {
    if a != [] {
      assert (a + b)[1..] == a[1..] + b;
      DropEmptyConcat(a[1..], b);
    } else {
      assert a + b == b;
    }
  }

  lemma {:induction false} DropEmptyKeeps(a: seq<string>)
    requires forall k :: 0 <= k < |a| ==> a[k] != ""
    ensures DropEmpty(a) == a
  {
    if a != [] {
      DropEmptyKeeps(a[1..]);
      assert a == [a[0]] + a[1..];
    }
  }

  /** Nothing `filter(Boolean)` returns is empty. */
  lemma {:induction false} DropEmptyNonEmpty(a: seq<string>)
    ensures forall k :: 0 <= k < |DropEmpty(a)| ==> DropEmpty(a)[k] != ""
  {
    if a != [] {
      DropEmptyNonEmpty(a[1..]);
    }
  }

  /** A line that differs from `prefix` at index `i` does not start with it. */
  lemma DiffersAt(line: string, prefix: string, i: nat)
    requires i < |prefix| && i < |line| && line[i] != prefix[i]
    ensures !IsLineOf(line, prefix)
  {
    if |prefix| <= |line| {
      assert line[..|prefix|][i] == line[i];
    }
  }

  /** The lines that are neither empty nor a DTSTART or DTEND line. */
  predicate Undated(lines: seq<string>) {
    forall k :: 0 <= k < |lines| ==>
      (lines[k] != "" && !IsLineOf(lines[k], "DTSTART:") && !IsLineOf(lines[k], "DTEND:"))
  }

  lemma HeadUndated(uid: string, stamp: string)
    ensures Undated(HeadLines(uid, stamp))
  {
    var h := HeadLines(uid, stamp);
    DiffersAt(h[0], "DTSTART:", 0); DiffersAt(h[0], "DTEND:", 0);
    DiffersAt(h[1], "DTSTART:", 0); DiffersAt(h[1], "DTEND:", 0);
    DiffersAt(h[2], "DTSTART:", 0); DiffersAt(h[2], "DTEND:", 0);
    DiffersAt(h[3], "DTSTART:", 0); DiffersAt(h[3], "DTEND:", 0);
    DiffersAt(h[4], "DTSTART:", 0); DiffersAt(h[4], "DTEND:", 0);
    assert h[5][0] == 'U';
    DiffersAt(h[5], "DTSTART:", 0); DiffersAt(h[5], "DTEND:", 0);
    assert h[6][2] == 'S' && h[6][5] == 'M';
    DiffersAt(h[6], "DTSTART:", 5); DiffersAt(h[6], "DTEND:", 2);
  }

  lemma TailUndated(summary: string, location: string, description: string)
    ensures Undated(TailLines(summary, location, description))
  {
    var t := TailLines(summary, location, description);
    assert t[0][0] == 'S' && t[1][0] == 'L' && t[2][1] == 'E';
    DiffersAt(t[0], "DTSTART:", 0); DiffersAt(t[0], "DTEND:", 0);
    DiffersAt(t[1], "DTSTART:", 0); DiffersAt(t[1], "DTEND:", 0);
    DiffersAt(t[2], "DTSTART:", 1); DiffersAt(t[2], "DTEND:", 1);
    DiffersAt(t[3], "DTSTART:", 0); DiffersAt(t[3], "DTEND:", 0);
    DiffersAt(t[4], "DTSTART:", 0); DiffersAt(t[4], "DTEND:", 0);
  }

  /** A DTSTART line is no DTEND line, and the other way round. */
  lemma BoundsUndated(start: string, end: string)
    ensures !IsLineOf("DTSTART:" + start, "DTEND:")
    ensures !IsLineOf("DTEND:" + end, "DTSTART:")
  {
    assert ("DTSTART:" + start)[2] == 'S';
    DiffersAt("DTSTART:" + start, "DTEND:", 2);
    assert ("DTEND:" + end)[2] == 'E';
    DiffersAt("DTEND:" + end, "DTSTART:", 2);
  }

  lemma DropOptional(prefix: string, value: string)
    ensures DropEmpty([if value != "" then prefix + value else ""]) == OptionalLine(prefix, value)
  {
    var l := [if value != "" then prefix + value else ""];
    assert l[1..] == [];
    if value != "" {
      assert |l[0]| > 0;
    }
  }

  lemma EntriesParts(uid: string, stamp: string, start: string, end: string,
                     summary: string, location: string, description: string)
    ensures Entries(uid, stamp, start, end, summary, location, description) ==
      HeadLines(uid, stamp) + [if start != "" then "DTSTART:" + start else ""]
      + [if end != "" then "DTEND:" + end else ""] + TailLines(summary, location, description)
  {
  }

  /** After `filter(Boolean)` the entries are the seven head lines, a DTSTART line
      when `start` is non-empty, a DTEND line when `end` is non-empty, and the five
      closing lines. */
  lemma EntriesShape(uid: string, stamp: string, start: string, end: string,
                     summary: string, location: string, description: string)
    ensures DropEmpty(Entries(uid, stamp, start, end, summary, location, description)) ==
      HeadLines(uid, stamp) + OptionalLine("DTSTART:", start) + OptionalLine("DTEND:", end)
      + TailLines(summary, location, description)
  {
    var h, t := HeadLines(uid, stamp), TailLines(summary, location, description);
    var s := [if start != "" then "DTSTART:" + start else ""];
    var e := [if end != "" then "DTEND:" + end else ""];
    EntriesParts(uid, stamp, start, end, summary, location, description);
    DropEmptyConcat(h + s + e, t);
    DropEmptyConcat(h + s, e);
    DropEmptyConcat(h, s);
    HeadUndated(uid, stamp);
    DropEmptyKeeps(h);
    TailUndated(summary, location, description);
    DropEmptyKeeps(t);
    DropOptional("DTSTART:", start);
    DropOptional("DTEND:", end);
    assert DropEmpty(h) == h && DropEmpty(t) == t;
    assert DropEmpty(s) == OptionalLine("DTSTART:", start);
    assert DropEmpty(e) == OptionalLine("DTEND:", end);
  }

  /** Where the DTEND line sits: right after DTSTART, or in its place. */
  function EndIndex(start: string): nat {
    if start != "" then 8 else 7
  }

  lemma PartsStructure(h: seq<string>, s: seq<string>, e: seq<string>, t: seq<string>,
                       start: string, end: string)
    requires |h| == 7 && |t| == 5
    requires Undated(h) && Undated(t)
    requires s == OptionalLine("DTSTART:", start) && e == OptionalLine("DTEND:", end)
    requires !IsLineOf("DTSTART:" + start, "DTEND:") && !IsLineOf("DTEND:" + end, "DTSTART:")
    ensures var ls := h + s + e + t;
      && |ls| == 12 + |s| + |e|
      && ls[0] == h[0] && ls[|ls| - 1] == t[4]
      && (start != "" ==> ls[7] == "DTSTART:" + start)
      && (end != "" ==> ls[EndIndex(start)] == "DTEND:" + end)
      && (forall k :: 0 <= k < |ls| ==> ls[k] != "")
      && (forall k :: 0 <= k < |ls| ==> (IsLineOf(ls[k], "DTSTART:") <==> start != "" && k == 7))
      && (forall k :: 0 <= k < |ls| ==> (IsLineOf(ls[k], "DTEND:") <==> end != "" && k == EndIndex(start)))
  {
    var ls := h + s + e + t;
    assert ls[|ls| - 1] == t[4];
    if start != "" {
      assert ls[7] == s[0];
    }
    if end != "" {
      assert ls[EndIndex(start)] == e[0];
    }
    forall k | 0 <= k < |ls|
      ensures ls[k] != ""
      ensures IsLineOf(ls[k], "DTSTART:") <==> start != "" && k == 7
      ensures IsLineOf(ls[k], "DTEND:") <==> end != "" && k == EndIndex(start)
    {
      if k < 7 {
        assert ls[k] == h[k];
      } else if k < 7 + |s| {
        assert ls[k] == s[0];
      } else if k < 7 + |s| + |e| {
        assert ls[k] == e[0];
      } else {
        assert ls[k] == t[k - 7 - |s| - |e|];
      }
    }
  }

  /** The structure the script promises, for any field values: the document opens
      with BEGIN:VCALENDAR and closes with END:VCALENDAR, no line is empty, there
      are twelve lines plus one per non-empty bound, and the only DTSTART (DTEND)
      line is `DTSTART:<start>` (`DTEND:<end>`), present exactly when that bound is
      non-empty. */
  lemma EntriesStructure(uid: string, stamp: string, start: string, end: string,
                         summary: string, location: string, description: string)
    ensures var ls := DropEmpty(Entries(uid, stamp, start, end, summary, location, description));
      && |ls| == 12 + (if start != "" then 1 else 0) + (if end != "" then 1 else 0)
      && ls[0] == "BEGIN:VCALENDAR" && ls[|ls| - 1] == "END:VCALENDAR"
      && (forall k :: 0 <= k < |ls| ==> ls[k] != "")
      && (forall k :: 0 <= k < |ls| ==> (IsLineOf(ls[k], "DTSTART:") <==> start != "" && k == 7))
      && (start != "" ==> ls[7] == "DTSTART:" + start)
      && (forall k :: 0 <= k < |ls| ==> (IsLineOf(ls[k], "DTEND:") <==> end != "" && k == EndIndex(start)))
      && (end != "" ==> ls[EndIndex(start)] == "DTEND:" + end)
  {
    EntriesShape(uid, stamp, start, end, summary, location, description);
    var h, t := HeadLines(uid, stamp), TailLines(summary, location, description);
    var s, e := OptionalLine("DTSTART:", start), OptionalLine("DTEND:", end);
    HeadUndated(uid, stamp);
    TailUndated(summary, location, description);
    BoundsUndated(start, end);
    PartsStructure(h, s, e, t, start, end);
  }

  /** `generateICS`'s lines for an event: the structure above with the escaped texts. */
  lemma IcsLinesStructure(ev: CalendarEvent, uid: string, stamp: string)
    ensures var ls := IcsLines(ev, uid, stamp);
      && |ls| == 12 + (if ev.start != "" then 1 else 0) + (if ev.end != "" then 1 else 0)
      && ls[0] == "BEGIN:VCALENDAR" && ls[|ls| - 1] == "END:VCALENDAR"
      && (forall k :: 0 <= k < |ls| ==> ls[k] != "")
      && (forall k :: 0 <= k < |ls| ==> (IsLineOf(ls[k], "DTSTART:") <==> ev.start != "" && k == 7))
      && (ev.start != "" ==> ls[7] == "DTSTART:" + ev.start)
      && (forall k :: 0 <= k < |ls| ==> (IsLineOf(ls[k], "DTEND:") <==> ev.end != "" && k == EndIndex(ev.start)))
      && (ev.end != "" ==> ls[EndIndex(ev.start)] == "DTEND:" + ev.end)
  {
    EntriesStructure(uid, stamp, ev.start, ev.end,
      EscapeIcs(Some(ev.summary)), EscapeIcs(Some(ev.location)), EscapeIcs(Some(ev.description)));
  }

  // ---- CRLF framing ----

  /** Splitting a text at each CRLF. */
  function SplitCrlf(s: string): (r: seq<string>)
    ensures |r| >= 1
    decreases |s|
  {
    match IndexOf(s, Crlf)
    case None => [s]
    case Some(i) => [s[..i]] + SplitCrlf(s[i + 2..])
  }

  lemma FirstCrlf(l: string, tail: string)
    requires '\n' !in l
    ensures IndexOf(l + Crlf + tail, Crlf) == Some(|l|)
  {
    var s := l + Crlf + tail;
    assert s[|l|..|l| + 2] == Crlf;
    assert OccursAt(s, Crlf, |l|);
    assert s[|l|] == '\r';
    IndexOfFromSpec(s, Crlf, 0);
    forall j: nat | j < |l| ensures !OccursAt(s, Crlf, j) {
      assert s[j..j + 2][1] == s[j + 1];
      if j + 1 < |l| {
        assert s[j + 1] == l[j + 1];
      }
    }
  }

  lemma NoCrlf(l: string)
    requires '\n' !in l
    ensures IndexOf(l, Crlf) == None
  {
    IndexOfFromSpec(l, Crlf, 0);
    forall j: nat | j + 2 <= |l| ensures !OccursAt(l, Crlf, j) {
      assert l[j..j + 2][1] == l[j + 1];
    }
  }

  /** Splitting the joined lines at CRLF gives the lines back when none of them
      holds a line feed. */
  lemma {:induction false} SplitCrlfJoin(lines: seq<string>)
    requires |lines| >= 1 && LineFeedFree(lines)
    ensures SplitCrlf(Join(lines, Crlf)) == lines
  {
    if |lines| == 1 {
      NoCrlf(lines[0]);
    } else {
      var tail := Join(lines[1..], Crlf);
      var s := lines[0] + Crlf + tail;
      FirstCrlf(lines[0], tail);
      assert s[..|lines[0]|] == lines[0];
      assert s[|lines[0]| + 2..] == tail;
      SplitCrlfJoin(lines[1..]);
      assert lines == [lines[0]] + lines[1..];
    }
  }

  /** No line of `lines` holds a line feed. */
  predicate LineFeedFree(lines: seq<string>) {
    forall k :: 0 <= k < |lines| ==> '\n' !in lines[k]
  }

  lemma LineFeedFreeConcat(a: seq<string>, b: seq<string>)
    requires LineFeedFree(a) && LineFeedFree(b)
    ensures LineFeedFree(a + b)
  {
    forall k | 0 <= k < |a + b| ensures '\n' !in (a + b)[k] {
      if k < |a| {
        assert (a + b)[k] == a[k];
      } else {
        assert (a + b)[k] == b[k - |a|];
      }
    }
  }

  lemma HeadLineFeedFree(uid: string, stamp: string)
    requires '\n' !in uid && '\n' !in stamp
    ensures LineFeedFree(HeadLines(uid, stamp))
  {
  }

  lemma TailLineFeedFree(summary: string, location: string, description: string)
    requires '\n' !in summary && '\n' !in location && '\n' !in description
    ensures LineFeedFree(TailLines(summary, location, description))
  {
  }

  lemma EntriesNoLineFeed(uid: string, stamp: string, start: string, end: string,
                          summary: string, location: string, description: string)
    requires '\n' !in uid && '\n' !in stamp && '\n' !in start && '\n' !in end
    requires '\n' !in summary && '\n' !in location && '\n' !in description
    ensures LineFeedFree(DropEmpty(Entries(uid, stamp, start, end, summary, location, description)))
  {
    EntriesShape(uid, stamp, start, end, summary, location, description);
    var h, t := HeadLines(uid, stamp), TailLines(summary, location, description);
    var s, e := OptionalLine("DTSTART:", start), OptionalLine("DTEND:", end);
    HeadLineFeedFree(uid, stamp);
    TailLineFeedFree(summary, location, description);
    assert LineFeedFree(s) && LineFeedFree(e);
    LineFeedFreeConcat(h, s);
    LineFeedFreeConcat(h + s, e);
    LineFeedFreeConcat(h + s + e, t);
  }

  lemma EscapedFree(text: string)
    ensures '\n' !in EscapeIcs(Some(text))
  {
    EscapeChainIsEscapeText(text);
    EscapeTextNoLineFeed(text);
  }

  /** The document is its content lines, each ended by CRLF except the last:
      splitting it at CRLF gives the lines back. The escaped texts never break a
      line; the UID stem, the stamp and the bounds must hold no line feed. */
  lemma IcsDocumentLines(ev: CalendarEvent, uid: string, stamp: string)
    requires '\n' !in uid && '\n' !in stamp && '\n' !in ev.start && '\n' !in ev.end
    ensures SplitCrlf(IcsDocument(ev, uid, stamp)) == IcsLines(ev, uid, stamp)
  {
    EscapedFree(ev.summary);
    EscapedFree(ev.location);
    EscapedFree(ev.description);
    EntriesNoLineFeed(uid, stamp, ev.start, ev.end,
      EscapeIcs(Some(ev.summary)), EscapeIcs(Some(ev.location)), EscapeIcs(Some(ev.description)));
    IcsLinesStructure(ev, uid, stamp);
    SplitCrlfJoin(IcsLines(ev, uid, stamp));
  }

  lemma StampFree(y: string, mo: string, d: string, h: string, mi: string, s: string)
    requires AllDigits(y) && AllDigits(mo) && AllDigits(d) && AllDigits(h) && AllDigits(mi) && AllDigits(s)
    ensures '\n' !in (y + mo + d) + "T" + (h + mi + s) + "Z"
  {
    IsoGroupFree(y); IsoGroupFree(mo); IsoGroupFree(d);
    IsoGroupFree(h); IsoGroupFree(mi); IsoGroupFree(s);
  }

  /** `generateICS` at an instant given by the script's two clocks: the document
      splits back into its content lines, the UID is `<milliseconds>@smilebrightdental.com`
      and the DTSTAMP is the instant in the compact UTC form. */
  lemma GenerateIcsSpec(ev: CalendarEvent, nowMillis: nat,
                        y: string, mo: string, d: string, h: string, mi: string, s: string, ms: string)
    requires AllDigits(y) && AllDigits(mo) && AllDigits(d) && AllDigits(h)
    requires AllDigits(mi) && AllDigits(s) && AllDigits(ms)
    requires '\n' !in ev.start && '\n' !in ev.end
    ensures var iso := (y + "-" + mo + "-" + d) + "T" + (h + ":" + mi + ":" + s) + "." + ms + "Z";
      var lines := SplitCrlf(GenerateIcs(ev, nowMillis, iso));
      && lines == IcsLines(ev, NatToString(nowMillis), DtStamp(iso))
      && |lines| >= 12
      && lines[5] == "UID:" + NatToString(nowMillis) + UidDomain
      && lines[6] == "DTSTAMP:" + ((y + mo + d) + "T" + (h + mi + s) + "Z")
  {
    var iso := (y + "-" + mo + "-" + d) + "T" + (h + ":" + mi + ":" + s) + "." + ms + "Z";
    var uid, stamp := NatToString(nowMillis), DtStamp(iso);
    DtStampOfIso(y, mo, d, h, mi, s, ms);
    DigitsFree(uid, '\n');
    StampFree(y, mo, d, h, mi, s);
    IcsDocumentLines(ev, uid, stamp);
    IcsLinesStructure(ev, uid, stamp);
    EntriesShape(uid, stamp, ev.start, ev.end,
      EscapeIcs(Some(ev.summary)), EscapeIcs(Some(ev.location)), EscapeIcs(Some(ev.description)));
  }
}
