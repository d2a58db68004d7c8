/** Timestamp text for the calendar export: `buildDateTime` turns the form's
    `YYYY-MM-DD` date and `HH:MM` time into the compact floating local DATE-TIME of
    section 3.3.5 of RFC 5545 (`YYYYMMDDTHHMMSS`), and `addMinutesToTime` moves an
    `HH:MM` time forward on a 24-hour clock without touching the date. */
module CalendarTime {
  import opened JsText

  /** The time `buildDateTime` falls back to when the form gives none. */
  const DefaultTime: string := "10:00"

  /** Minutes in a day: `addMinutesToTime` wraps modulo this. */
  const MinutesPerDay: nat := 1440

  /** `buildDateTime(dateStr, timeStr)`: no date, no timestamp; otherwise every `-`
      of the date is removed, then `T`, the time (or the default) with its first
      `:` removed, and `00` seconds. */
  function BuildDateTime(dateStr: string, timeStr: string): (r: string)
    ensures r == "" <==> dateStr == ""
  {
    if dateStr == "" then ""
    else ReplaceAll(dateStr, '-', "") + "T" + ReplaceFirst(if timeStr == "" then DefaultTime else timeStr, ":", "") + "00"
  }

  /** The shape of an HTML date input's value: `YYYY-MM-DD` in digits. */
  predicate IsIsoDate(d: string) {
    |d| == 10 && d[4] == '-' && d[7] == '-' && AllDigits(d[..4]) && AllDigits(d[5..7]) && AllDigits(d[8..])
  }

  /** A 24-hour clock time `HH:MM`, hours 00..23 and minutes 00..59. */
  predicate IsClockTime(t: string) {
    |t| == 5 && t[2] == ':' && AllDigits(t[..2]) && AllDigits(t[3..])
    && DigitsValue(t[..2]) < 24 && DigitsValue(t[3..]) < 60
  }

  /** The form `YYYYMMDDTHHMMSS` of section 3.3.5 of RFC 5545 (local time, no `Z`). */
  predicate IsDateTimeForm(r: string) {
    |r| == 15 && r[8] == 'T' && AllDigits(r[..8]) && AllDigits(r[9..])
  }

  /** The `YYYY-MM-DD` date a compact timestamp denotes. */
  function DateOf(r: string): string
    requires IsDateTimeForm(r)
  {
    r[..4] + "-" + r[4..6] + "-" + r[6..8]
  }

  /** The `HH:MM` time a compact timestamp denotes. */
  function TimeOf(r: string): string
    requires IsDateTimeForm(r)
  {
    r[9..11] + ":" + r[11..13]
  }

  /** Removing the dashes of `y-m-d` leaves `ymd` when the groups hold no dash. */
  lemma RemoveDateDashes(y: string, m: string, dd: string)
    requires '-' !in y && '-' !in m && '-' !in dd
    ensures ReplaceAll(y + "-" + m + "-" + dd, '-', "") == y + m + dd
  {
    var left, right := y + "-" + m, "-" + dd;
    assert y + "-" + m + "-" + dd == left + right;
    ReplaceAllConcat(left, right, '-', "");
    assert ReplaceAll(left, '-', "") == y + m by {
      assert left == y + ['-'] + m;
      ReplaceAllSplice(y, '-', m);
    }
    assert ReplaceAll(right, '-', "") == dd by {
      assert right == [] + ['-'] + dd;
      ReplaceAllSplice([], '-', dd);
    }
    assert y + m + dd == (y + m) + dd;
  }

  /** `buildDateTime` on `y-m-d` and `hh:mm` whose groups hold no separator. */
  lemma BuildDateTimeParts(y: string, m: string, dd: string, hh: string, mm: string)
    requires '-' !in y && '-' !in m && '-' !in dd && ':' !in hh
    ensures BuildDateTime(y + "-" + m + "-" + dd, hh + ":" + mm) == y + m + dd + "T" + hh + mm + "00"
  {
    RemoveDateDashes(y, m, dd);
    ReplaceFirstChar(hh, ':', mm, "");
    assert hh + ":" + mm == hh + [':'] + mm;
    assert hh + ":" + mm != "";
  }

  /** On a well-formed date and time, `buildDateTime` concatenates their digit groups. */
  lemma BuildDateTimeDigits(d: string, t: string)
    requires IsIsoDate(d) && IsClockTime(t)
    ensures BuildDateTime(d, t) == d[..4] + d[5..7] + d[8..] + "T" + t[..2] + t[3..] + "00"
  {
    assert d == d[..4] + "-" + d[5..7] + "-" + d[8..];
    assert t == t[..2] + ":" + t[3..];
    assert '-' !in d[..4] by { assert forall k :: 0 <= k < 4 ==> IsDigit(d[..4][k]); }
    assert '-' !in d[5..7] by { assert forall k :: 0 <= k < 2 ==> IsDigit(d[5..7][k]); }
    assert '-' !in d[8..] by { assert forall k :: 0 <= k < 2 ==> IsDigit(d[8..][k]); }
    assert ':' !in t[..2] by { assert forall k :: 0 <= k < 2 ==> IsDigit(t[..2][k]); }
    BuildDateTimeParts(d[..4], d[5..7], d[8..], t[..2], t[3..]);
  }

  /** Digit groups of the right widths make a compact timestamp that denotes the
      date and the time they came from. */
  lemma CompactParts(y: string, m: string, dd: string, hh: string, mm: string)
    requires |y| == 4 && |m| == 2 && |dd| == 2 && |hh| == 2 && |mm| == 2
    requires AllDigits(y) && AllDigits(m) && AllDigits(dd) && AllDigits(hh) && AllDigits(mm)
    ensures var r := y + m + dd + "T" + hh + mm + "00";
      IsDateTimeForm(r) && r[13..] == "00" && DateOf(r) == y + "-" + m + "-" + dd && TimeOf(r) == hh + ":" + mm
  {
    var r := y + m + dd + "T" + hh + mm + "00";
    assert r[..4] == y && r[4..6] == m && r[6..8] == dd && r[8] == 'T';
    assert r[9..11] == hh && r[11..13] == mm && r[13..] == "00";
    assert r[..8] == y + m + dd;
    assert r[9..] == hh + mm + "00";
  }

  /** Round trip: the timestamp of a well-formed date and time has the RFC 5545 form,
      zero seconds, and denotes exactly that date and that time. */
  lemma BuildDateTimeRoundTrip(d: string, t: string)
    requires IsIsoDate(d) && IsClockTime(t)
    ensures IsDateTimeForm(BuildDateTime(d, t))
    ensures BuildDateTime(d, t)[13..] == "00"
    ensures DateOf(BuildDateTime(d, t)) == d && TimeOf(BuildDateTime(d, t)) == t
  {
    BuildDateTimeDigits(d, t);
    CompactParts(d[..4], d[5..7], d[8..], t[..2], t[3..]);
    IsoDateGroups(d);
    ClockTimeGroups(t);
  }

  /** A date is its three digit groups joined by dashes. */
  lemma IsoDateGroups(d: string)
    requires |d| == 10 && d[4] == '-' && d[7] == '-'
    ensures d == d[..4] + "-" + d[5..7] + "-" + d[8..]
  {
  }

  /** A clock time is its two digit groups joined by a colon. */
  lemma ClockTimeGroups(t: string)
    requires |t| == 5 && t[2] == ':'
    ensures t == t[..2] + ":" + t[3..]
  {
  }

  /** A missing time is the default `10:00`. */
  lemma BuildDateTimeDefaultTime(d: string)
    ensures BuildDateTime(d, "") == BuildDateTime(d, DefaultTime)
  {
  }

  /** `2024-03-05` at `14:15` is `20240305T141500`. */
  lemma BuildDateTimeExample(d: string, t: string)
    requires d == "2024-03-05" && t == "14:15"
    ensures BuildDateTime(d, t) == "20240305T141500"
  {
    ExampleGroups(d, t);
    BuildDateTimeParts("2024", "03", "05", "14", "15");
  }

  lemma ExampleGroups(d: string, t: string)
    requires d == "2024-03-05" && t == "14:15"
    ensures d == "2024" + "-" + "03" + "-" + "05" && t == "14" + ":" + "15"
    ensures '-' !in "2024" && '-' !in "03" && '-' !in "05" && ':' !in "14"
    ensures "2024" + "03" + "05" + "T" + "14" + "15" + "00" == "20240305T141500"
  {
  }

  function Pow10(n: nat): (p: nat)
    ensures p >= 1
  {
    if n == 0 then 1 else 10 * Pow10(n - 1)
  }

  /** `v` as exactly `width` decimal digits, zero-padded on the left (the low
      `width` digits of `v`). */
  function Digits(v: nat, width: nat): (r: string)
    ensures |r| == width && AllDigits(r)
  {
    if width == 0 then "" else Digits(v / 10, width - 1) + [DigitChar(v % 10)]
  }

  /** Fixed-width text reads back as the number, when the number fits. */
  lemma {:induction false} DigitsValueOfDigits(v: nat, width: nat)
    requires v < Pow10(width)
    ensures DigitsValue(Digits(v, width)) == v
  {
    if width > 0 {
      DigitsValueOfDigits(v / 10, width - 1);
      var r := Digits(v, width);
      assert r[..|r| - 1] == Digits(v / 10, width - 1);
    }
  }

  /** ... and a digit string is the fixed-width text of its value. */
  lemma {:induction false} DigitsOfDigitsValue(s: string)
    requires AllDigits(s)
    ensures DigitsValue(s) < Pow10(|s|)
    ensures Digits(DigitsValue(s), |s|) == s
  {
    if s != [] {
      var init := s[..|s| - 1];
      DigitsOfDigitsValue(init);
      var v := DigitsValue(s);
      assert v / 10 == DigitsValue(init) && v % 10 == DigitValue(s[|s| - 1]);
      assert s == init + [s[|s| - 1]];
    }
  }

  /** `String(v).padStart(2, '0')` is the two-digit text of `v` below 100. */
  lemma PadStart2OfString(v: nat)
    requires v < 100
    ensures PadStart2(IntToString(v)) == Digits(v, 2)
  {
    if v < 10 {
      assert Digits(v, 2) == Digits(0, 1) + [DigitChar(v)];
      assert Digits(0, 1) == [DigitChar(0)];
    } else {
      assert NatToString(v) == NatToString(v / 10) + [DigitChar(v % 10)];
      assert Digits(v / 10, 1) == [DigitChar(v / 10)];
    }
  }

  /** The `HH:MM` text of a minute of the day. */
  function ClockText(v: nat): string
    requires v < MinutesPerDay
  {
    Digits(v / 60, 2) + ":" + Digits(v % 60, 2)
  }

  /** The minute of the day an `HH:MM` time denotes. */
  function ClockMinutes(t: string): nat
    requires IsClockTime(t)
  {
    DigitsValue(t[..2]) * 60 + DigitsValue(t[3..])
  }

  /** `ClockText` and `ClockMinutes` are inverse: every minute of the day has a
      well-formed clock text that reads back as it. */
  lemma ClockTextRoundTrip(v: nat)
    requires v < MinutesPerDay
    ensures IsClockTime(ClockText(v)) && ClockMinutes(ClockText(v)) == v
  {
    var t := ClockText(v);
    assert t[..2] == Digits(v / 60, 2) && t[3..] == Digits(v % 60, 2);
    DigitsValueOfDigits(v / 60, 2);
    DigitsValueOfDigits(v % 60, 2);
  }

  /** ... in both directions: every clock time is the text of its minute. */
  lemma ClockMinutesRoundTrip(t: string)
    requires IsClockTime(t)
    ensures ClockMinutes(t) < MinutesPerDay && ClockText(ClockMinutes(t)) == t
  {
    var h, m := DigitsValue(t[..2]), DigitsValue(t[3..]);
    var v := ClockMinutes(t);
    assert v / 60 == h && v % 60 == m;
    DigitsOfDigitsValue(t[..2]);
    DigitsOfDigitsValue(t[3..]);
    assert t == t[..2] + ":" + t[3..];
  }

  /** `v || '0'` on a piece of the split time. */
  function OrZero(v: string): string {
    if v == "" then "0" else v
  }

  /** The first line of `addMinutesToTime`: split at `:` and read the first two
      pieces with `parseInt` (an empty piece reads as 0). `None` is NaN: when there is
      no `:` the destructured minute is `undefined`, and an unreadable piece is NaN. */
  function ReadTime(timeStr: string): Option<(int, int)> {
    var parts := Split(timeStr, ':');
    var h := ParseInt(OrZero(parts[0]));
    var m := if |parts| >= 2 then ParseInt(OrZero(parts[1])) else None;
    if h.None? || m.None? then None else Some((h.value, m.value))
  }

  /** The last lines of `addMinutesToTime`: the hour `floor((total % 1440) / 60)` and
      the minute `total % 60` (JavaScript remainders), each padded to two characters. */
  function PrintClock(total: int): string {
    PadStart2(IntToString(JsRem(total, MinutesPerDay) / 60)) + ":" + PadStart2(IntToString(JsRem(total, 60)))
  }

  /** `h * 60 + m + minutesToAdd` printed as a clock; a NaN sum prints as `NaN:NaN`. */
  function ShowTotal(hm: Option<(int, int)>, minutesToAdd: int): string {
    match hm
    case None => "NaN:NaN"
    case Some((h, m)) => PrintClock(h * 60 + m + minutesToAdd)
  }

  /** `addMinutesToTime(timeStr, minutesToAdd)`: read the time, add, print. */
  function AddMinutesToTime(timeStr: string, minutesToAdd: int): string {
    ShowTotal(ReadTime(timeStr), minutesToAdd)
  }

  /** Digit hours and digit minutes are read as their values. */
  lemma ReadTimeDigits(a: string, b: string)
    requires a != [] && AllDigits(a) && AllDigits(b)
    ensures ReadTime(a + ":" + b) == Some((DigitsValue(a), DigitsValue(b)))
  {
    SplitJoin([a, b], ':');
    assert Join([a, b], [':']) == a + ":" + b;
    ParseIntDigits(a);
    ParseIntDigits(OrZero(b));
    assert DigitsValue("0") == 0;
  }

  /** An empty minute piece reads as zero minutes. */
  lemma ReadTimeEmptyMinutes(a: string)
    requires ':' !in a
    ensures ReadTime(a + ":") == ReadTime(a + ":0")
  {
    SplitJoin([a, ""], ':');
    SplitJoin([a, "0"], ':');
    assert Join([a, ""], [':']) == a + ":";
    assert Join([a, "0"], [':']) == a + ":0";
  }

  /** Without a `:` there is no minute piece: the time is unreadable. */
  lemma ReadTimeNoColon(t: string)
    requires ':' !in t
    ensures ReadTime(t) == None
  {
    assert Split(t, ':') == [t];
  }

  lemma ModOfModDay(x: nat)
    ensures (x % MinutesPerDay) % 60 == x % 60
  {
    var q, r := x / MinutesPerDay, x % MinutesPerDay;
    assert x == 60 * (24 * q) + r;
  }

  /** A non-negative total prints as the clock text of its minute of the day. */
  lemma PrintClockNonNegative(total: int)
    requires total >= 0
    ensures PrintClock(total) == ClockText(total % MinutesPerDay)
  {
    var v := total % MinutesPerDay;
    ModOfModDay(total);
    PadStart2OfString(v / 60);
    PadStart2OfString(v % 60);
  }

  /** The minute of the day `k` minutes after minute `v`. */
  function Later(v: nat, k: nat): nat {
    (v + k) % MinutesPerDay
  }

  /** The minute of the day on which the sum `h * 60 + m + k` falls. */
  function MinuteAfter(h: int, m: int, k: int): nat
    requires h * 60 + m + k >= 0
  {
    (h * 60 + m + k) % MinutesPerDay
  }

  /** A readable time with a non-negative sum prints the clock text of the sum's
      minute of the day. */
  lemma ShowTotalClock(h: int, m: int, k: int)
    requires h * 60 + m + k >= 0
    ensures ShowTotal(Some((h, m)), k) == ClockText(MinuteAfter(h, m, k))
  {
    assert ShowTotal(Some((h, m)), k) == PrintClock(h * 60 + m + k);
    PrintClockNonNegative(h * 60 + m + k);
  }

  lemma AddMinutesRead(t: string, k: int, h: int, m: int)
    requires ReadTime(t) == Some((h, m)) && h * 60 + m + k >= 0
    ensures AddMinutesToTime(t, k) == ClockText(MinuteAfter(h, m, k))
  {
    assert AddMinutesToTime(t, k) == ShowTotal(Some((h, m)), k);
    ShowTotalClock(h, m, k);
  }

  /** For digit hours `a` and digit minutes `b` (an empty minute piece reads as 0)
      and a non-negative amount `k`, the result is the clock text of minute
      `(a * 60 + b + k) mod 1440`: the day wraps and nothing carries out of it. */
  lemma AddMinutesDigits(a: string, b: string, k: nat)
    requires a != [] && AllDigits(a) && AllDigits(b)
    ensures AddMinutesToTime(a + ":" + b, k) == ClockText(MinuteAfter(DigitsValue(a), DigitsValue(b), k))
  {
    ReadTimeDigits(a, b);
    AddMinutesRead(a + ":" + b, k, DigitsValue(a), DigitsValue(b));
  }

  /** The clock text of a minute of the day reads back as its hour and minute. */
  lemma ReadClockText(v: nat)
    requires v < MinutesPerDay
    ensures ReadTime(ClockText(v)) == Some((v / 60, v % 60))
  {
    var a, b := Digits(v / 60, 2), Digits(v % 60, 2);
    DigitsValueOfDigits(v / 60, 2);
    DigitsValueOfDigits(v % 60, 2);
    ReadTimeDigits(a, b);
  }

  lemma MinuteAfterOfDay(v: nat, k: nat)
    ensures MinuteAfter(v / 60, v % 60, k) == Later(v, k)
  {
    assert v / 60 * 60 + v % 60 == v;
  }

  /** Adding to the clock text of a minute of the day gives the clock text of the
      minute `k` later, modulo a day. */
  lemma AddMinutesClockText(v: nat, k: nat)
    requires v < MinutesPerDay
    ensures AddMinutesToTime(ClockText(v), k) == ClockText(Later(v, k))
  {
    ReadClockText(v);
    AddMinutesRead(ClockText(v), k, v / 60, v % 60);
    MinuteAfterOfDay(v, k);
  }

  /** On a clock time the result is the clock text of the minute `k` later,
      modulo a day ... */
  lemma AddMinutesOnClock(t: string, k: nat)
    requires IsClockTime(t)
    ensures AddMinutesToTime(t, k) == ClockText(Later(ClockMinutes(t), k))
  {
    ClockMinutesRoundTrip(t);
    var v := ClockMinutes(t);
    AddMinutesOnText(t, v, k);
  }

  lemma AddMinutesOnText(t: string, v: nat, k: nat)
    requires v < MinutesPerDay && ClockText(v) == t
    ensures AddMinutesToTime(t, k) == ClockText(Later(v, k))
  {
    AddMinutesClockText(v, k);
  }

  /** ... so it is again a clock time `HH:MM` (hours 00..23, minutes 00..59) that
      denotes that minute. */
  lemma AddMinutesClockRange(t: string, k: nat)
    requires IsClockTime(t)
    ensures IsClockTime(AddMinutesToTime(t, k))
    ensures ClockMinutes(AddMinutesToTime(t, k)) == Later(ClockMinutes(t), k)
  {
    AddMinutesOnClock(t, k);
    ClockTextRoundTrip(Later(ClockMinutes(t), k));
  }

  /** An empty minute piece counts as zero minutes. */
  lemma AddMinutesEmptyMinutes(a: string, k: int)
    requires ':' !in a
    ensures AddMinutesToTime(a + ":", k) == AddMinutesToTime(a + ":0", k)
  {
    ReadTimeEmptyMinutes(a);
  }

  /** Without a `:` the minute is `undefined` and the result is `NaN:NaN`. */
  lemma AddMinutesNoColon(t: string, k: int)
    requires ':' !in t
    ensures AddMinutesToTime(t, k) == "NaN:NaN"
  {
    ReadTimeNoColon(t);
  }

  /** `23:50` reads as 23 hours and 50 minutes. */
  lemma ReadTimeExample(t: string)
    requires t == "23:50"
    ensures ReadTime(t) == Some((23, 50))
  {
    WrapExampleGroups(t);
    ReadTimeDigits("23", "50");
  }

  lemma WrapExampleGroups(t: string)
    requires t == "23:50"
    ensures t == "23" + ":" + "50"
    ensures "23" != [] && AllDigits("23") && AllDigits("50")
    ensures DigitsValue("23") == 23 && DigitsValue("50") == 50
  {
  }

  /** `23:50` plus 30 is `00:20`: the day wraps and nothing carries into the date. */
  lemma AddMinutesWrapExample(t: string)
    requires t == "23:50"
    ensures AddMinutesToTime(t, 30) == "00:20"
  {
    ReadTimeExample(t);
    WrapExamplePrint();
  }

  lemma WrapExamplePrint()
    ensures ShowTotal(Some((23, 50)), 30) == "00:20"
  {
    assert PrintClock(23 * 60 + 50 + 30) == "00:20";
  }
}
