/** The appointment's time window in `handleCalendarAdd`: it starts at the chosen
    date and time (10:00 when no time is given) and ends 30 minutes later. The end
    is built from the same date and `addMinutesToTime`, whose clock wraps at
    midnight, so from 23:30 on the end falls BEFORE the start. The model keeps that
    end as written and defines the end the code evidently means, which carries
    into the next day. */
module EventWindow {
  import opened JsText
  import opened CalendarTime

  /** Length of the appointment slot in minutes. */
  const EventMinutes: nat := 30

  /** `time || '10:00'`. */
  function SlotTime(time: string): string {
    if time == "" then DefaultTime else time
  }

  /** `start = buildDateTime(date, time)`. */
  function EventStart(date: string, time: string): string {
    BuildDateTime(date, time)
  }

  /** `end = buildDateTime(date, addMinutesToTime(time || '10:00', 30))`. */
  function EventEndAsWritten(date: string, time: string): string {
    BuildDateTime(date, AddMinutesToTime(SlotTime(time), EventMinutes))
  }

  // ---- calendar dates ----

  datatype Date = Date(year: nat, month: nat, day: nat)

  /** Gregorian leap years. */
  predicate IsLeapYear(y: nat) {
    (y % 4 == 0 && y % 100 != 0) || y % 400 == 0
  }

  function DaysInMonth(y: nat, m: nat): (r: nat)
    ensures 28 <= r <= 31
  {
    if m == 2 then (if IsLeapYear(y) then 29 else 28)
    else if m == 4 || m == 6 || m == 9 || m == 11 then 30
    else 31
  }

  /** A real calendar day (what a date input can hold). */
  predicate ValidDate(dt: Date) {
    1 <= dt.month <= 12 && 1 <= dt.day <= DaysInMonth(dt.year, dt.month)
  }

  /** The day after. */
  function NextDay(dt: Date): Date {
    if dt.day < DaysInMonth(dt.year, dt.month) then Date(dt.year, dt.month, dt.day + 1)
    else if dt.month < 12 then Date(dt.year, dt.month + 1, 1)
    else Date(dt.year + 1, 1, 1)
  }

  /** Calendar order of days. */
  predicate DateBefore(a: Date, b: Date) {
    a.year < b.year || (a.year == b.year && (a.month < b.month || (a.month == b.month && a.day < b.day)))
  }

  /** The next day is a real day, and it comes after. */
  lemma NextDaySpec(dt: Date)
    requires ValidDate(dt)
    ensures ValidDate(NextDay(dt)) && DateBefore(dt, NextDay(dt))
  {
  }

  /** The date a `YYYY-MM-DD` value denotes. */
  function DateOfText(d: string): Date
    requires IsIsoDate(d)
  {
    Date(DigitsValue(d[..4]), DigitsValue(d[5..7]), DigitsValue(d[8..]))
  }

  /** `YYYY-MM-DD` text of a date, the year taken to four digits. */
  function DateText(dt: Date): string {
    Digits(dt.year, 4) + "-" + Digits(dt.month, 2) + "-" + Digits(dt.day, 2)
  }

  lemma DateTextGroups(y: string, m: string, dd: string)
    requires |y| == 4 && |m| == 2 && |dd| == 2 && AllDigits(y) && AllDigits(m) && AllDigits(dd)
    ensures var d := y + "-" + m + "-" + dd;
      IsIsoDate(d) && d[..4] == y && d[5..7] == m && d[8..] == dd
  {
    var d := y + "-" + m + "-" + dd;
    assert d[..4] == y && d[5..7] == m && d[8..] == dd;
  }

  /** A real date with a four-digit year prints as a date input's value and reads
      back as itself. */
  lemma DateTextRoundTrip(dt: Date)
    requires ValidDate(dt) && dt.year < 10000
    ensures IsIsoDate(DateText(dt)) && DateOfText(DateText(dt)) == dt
  {
    DateTextGroups(Digits(dt.year, 4), Digits(dt.month, 2), Digits(dt.day, 2));
    assert Pow10(2) == 100 && Pow10(4) == 10000;
    DigitsValueOfDigits(dt.year, 4);
    DigitsValueOfDigits(dt.month, 2);
    DigitsValueOfDigits(dt.day, 2);
  }

  // ---- points in time ----

  /** A day and a minute of that day. */
  datatype Moment = Moment(date: Date, minute: nat)

  predicate Before(a: Moment, b: Moment) {
    DateBefore(a.date, b.date) || (a.date == b.date && a.minute < b.minute)
  }

  /** The moment a compact `YYYYMMDDTHHMMSS` timestamp denotes (seconds ignored). */
  function MomentOf(r: string): Moment
    requires IsDateTimeForm(r)
  {
    Moment(Date(DigitsValue(r[..4]), DigitsValue(r[4..6]), DigitsValue(r[6..8])),
      DigitsValue(r[9..11]) * 60 + DigitsValue(r[11..13]))
  }

  /** `k` minutes (at most a day) after `m`, carrying into the next day. */
  function Advance(m: Moment, k: nat): Moment {
    if m.minute + k < MinutesPerDay then Moment(m.date, m.minute + k)
    else Moment(NextDay(m.date), m.minute + k - MinutesPerDay)
  }

  /** A positive step forward from a real moment is later. */
  lemma AdvanceIsLater(m: Moment, k: nat)
    requires ValidDate(m.date) && 0 < k
    ensures Before(m, Advance(m, k))
  {
    NextDaySpec(m.date);
  }

  lemma DateOfSlices(r: string)
    requires IsDateTimeForm(r)
    ensures DateOf(r)[..4] == r[..4] && DateOf(r)[5..7] == r[4..6] && DateOf(r)[8..] == r[6..8]
    ensures TimeOf(r)[..2] == r[9..11] && TimeOf(r)[3..] == r[11..13]
  {
  }

  /** The timestamp of a well-formed date and clock time denotes that day and minute. */
  lemma MomentOfBuild(d: string, t: string)
    requires IsIsoDate(d) && IsClockTime(t)
    ensures IsDateTimeForm(BuildDateTime(d, t))
    ensures MomentOf(BuildDateTime(d, t)) == Moment(DateOfText(d), ClockMinutes(t))
  {
    BuildDateTimeRoundTrip(d, t);
    DateOfSlices(BuildDateTime(d, t));
  }

  // ---- the window as written ----

  /** The end as written keeps the date: it is the start's day at the wrapped
      minute. */
  lemma EventEndAsWrittenMoment(date: string, time: string)
    requires IsIsoDate(date) && IsClockTime(SlotTime(time))
    ensures IsDateTimeForm(EventStart(date, time)) && IsDateTimeForm(EventEndAsWritten(date, time))
    ensures MomentOf(EventStart(date, time)) == Moment(DateOfText(date), ClockMinutes(SlotTime(time)))
    ensures MomentOf(EventEndAsWritten(date, time)) ==
      Moment(DateOfText(date), Later(ClockMinutes(SlotTime(time)), EventMinutes))
  {
    var t := SlotTime(time);
    BuildDateTimeDefaultTime(date);
    assert EventStart(date, time) == BuildDateTime(date, t);
    MomentOfBuild(date, t);
    AddMinutesClockRange(t, EventMinutes);
    MomentOfBuild(date, AddMinutesToTime(t, EventMinutes));
  }

  /** From 23:30 on, the end as written comes before the start. */
  lemma EventEndAsWrittenBeforeStart(date: string, time: string)
    requires IsIsoDate(date) && IsClockTime(SlotTime(time))
    requires ClockMinutes(SlotTime(time)) + EventMinutes >= MinutesPerDay
    ensures IsDateTimeForm(EventStart(date, time)) && IsDateTimeForm(EventEndAsWritten(date, time))
    ensures Before(MomentOf(EventEndAsWritten(date, time)), MomentOf(EventStart(date, time)))
  {
    EventEndAsWrittenMoment(date, time);
    ClockMinutesRoundTrip(SlotTime(time));
    WrappedBefore(DateOfText(date), ClockMinutes(SlotTime(time)));
  }

  /** A wrapped minute on the same day is earlier. */
  lemma WrappedBefore(d: Date, v: nat)
    requires v < MinutesPerDay && v + EventMinutes >= MinutesPerDay
    ensures Before(Moment(d, Later(v, EventMinutes)), Moment(d, v))
  {
    LaterValue(v);
  }

  /** The slot's end minute on the 24-hour clock. */
  lemma LaterValue(v: nat)
    requires v < MinutesPerDay
    ensures Later(v, EventMinutes) ==
      if v + EventMinutes < MinutesPerDay then v + EventMinutes else v + EventMinutes - MinutesPerDay
  {
  }

  /** 2024-03-05 at 23:50: the event would end at 00:20 on the same day. */
  lemma EventEndAsWrittenExample(date: string, time: string)
    requires date == "2024-03-05" && time == "23:50"
    ensures EventStart(date, time) == "20240305T235000"
    ensures EventEndAsWritten(date, time) == "20240305T002000"
    ensures IsDateTimeForm(EventStart(date, time)) && IsDateTimeForm(EventEndAsWritten(date, time))
      && Before(MomentOf(EventEndAsWritten(date, time)), MomentOf(EventStart(date, time)))
  {
    ExampleStartGroups(date, time);
    BuildDateTimeParts("2024", "03", "05", "23", "50");
    AddMinutesWrapExample(time);
    ExampleEndGroups(date, "00:20");
    BuildDateTimeParts("2024", "03", "05", "00", "20");
    ExampleShapes(date, time);
    EventEndAsWrittenBeforeStart(date, time);
  }

  lemma ExampleStartGroups(date: string, time: string)
    requires date == "2024-03-05" && time == "23:50"
    ensures date == "2024" + "-" + "03" + "-" + "05" && time == "23" + ":" + "50"
    ensures '-' !in "2024" && '-' !in "03" && '-' !in "05" && ':' !in "23" && ':' !in "00"
    ensures "2024" + "03" + "05" + "T" + "23" + "50" + "00" == "20240305T235000"
    ensures SlotTime(time) == time
  {
  }

  lemma ExampleEndGroups(date: string, t: string)
    requires date == "2024-03-05" && t == "00:20"
    ensures date == "2024" + "-" + "03" + "-" + "05" && t == "00" + ":" + "20"
    ensures "2024" + "03" + "05" + "T" + "00" + "20" + "00" == "20240305T002000"
  {
  }

  lemma ExampleShapes(date: string, time: string)
    requires date == "2024-03-05" && time == "23:50"
    ensures IsIsoDate(date) && IsClockTime(time)
    ensures ClockMinutes(time) + EventMinutes >= MinutesPerDay
  {
    assert date[..4] == "2024" && date[5..7] == "03" && date[8..] == "05";
    assert time[..2] == "23" && time[3..] == "50";
    assert DigitsValue("23") == 23 && DigitsValue("50") == 50;
  }

  // ---- the window as intended ----

  /** Whether the slot runs past midnight. */
  predicate CrossesMidnight(date: string, time: string) {
    IsIsoDate(date) && IsClockTime(SlotTime(time)) && ValidDate(DateOfText(date))
    && ClockMinutes(SlotTime(time)) + EventMinutes >= MinutesPerDay
  }

  /** The end 30 minutes after the start: past midnight it is on the next day;
      otherwise it is the end as written. */
  function EventEnd(date: string, time: string): string {
    if CrossesMidnight(date, time) then
      BuildDateTime(DateText(NextDay(DateOfText(date))), AddMinutesToTime(SlotTime(time), EventMinutes))
    else EventEndAsWritten(date, time)
  }

  /** On every real date and clock time the end is the start advanced by the slot's
      30 minutes, and so it comes after the start. */
  lemma EventEndSpec(date: string, time: string)
    requires IsIsoDate(date) && IsClockTime(SlotTime(time)) && ValidDate(DateOfText(date))
    requires NextDay(DateOfText(date)).year < 10000
    ensures IsDateTimeForm(EventStart(date, time)) && IsDateTimeForm(EventEnd(date, time))
    ensures MomentOf(EventEnd(date, time)) == Advance(MomentOf(EventStart(date, time)), EventMinutes)
    ensures Before(MomentOf(EventStart(date, time)), MomentOf(EventEnd(date, time)))
  {
    if CrossesMidnight(date, time) {
      EventEndCarry(date, time);
    } else {
      EventEndSameDay(date, time);
    }
    AdvanceIsLater(MomentOf(EventStart(date, time)), EventMinutes);
  }

  /** Before midnight the end is the same day, 30 minutes on. */
  lemma EventEndSameDay(date: string, time: string)
    requires IsIsoDate(date) && IsClockTime(SlotTime(time)) && ValidDate(DateOfText(date))
    requires !CrossesMidnight(date, time)
    ensures IsDateTimeForm(EventStart(date, time)) && IsDateTimeForm(EventEnd(date, time))
    ensures MomentOf(EventStart(date, time)) == Moment(DateOfText(date), ClockMinutes(SlotTime(time)))
    ensures MomentOf(EventEnd(date, time)) == Advance(MomentOf(EventStart(date, time)), EventMinutes)
  {
    EventEndAsWrittenMoment(date, time);
    ClockMinutesRoundTrip(SlotTime(time));
    AdvanceSameDay(DateOfText(date), ClockMinutes(SlotTime(time)));
  }

  /** Before midnight, advancing keeps the day. */
  lemma AdvanceSameDay(d: Date, v: nat)
    requires v + EventMinutes < MinutesPerDay
    ensures Advance(Moment(d, v), EventMinutes) == Moment(d, Later(v, EventMinutes))
  {
    LaterValue(v);
  }

  /** Past midnight, advancing moves to the next day at the wrapped minute. */
  lemma AdvanceCarry(d: Date, v: nat)
    requires v < MinutesPerDay && v + EventMinutes >= MinutesPerDay
    ensures Advance(Moment(d, v), EventMinutes) == Moment(NextDay(d), Later(v, EventMinutes))
  {
    LaterValue(v);
  }

  /** Past midnight the end is the next day at the wrapped minute, 30 minutes on. */
  lemma EventEndCarry(date: string, time: string)
    requires CrossesMidnight(date, time) && NextDay(DateOfText(date)).year < 10000
    ensures IsDateTimeForm(EventStart(date, time)) && IsDateTimeForm(EventEnd(date, time))
    ensures MomentOf(EventStart(date, time)) == Moment(DateOfText(date), ClockMinutes(SlotTime(time)))
    ensures MomentOf(EventEnd(date, time)) == Advance(MomentOf(EventStart(date, time)), EventMinutes)
  {
    EventEndAsWrittenMoment(date, time);
    ClockMinutesRoundTrip(SlotTime(time));
    AdvanceCarry(DateOfText(date), ClockMinutes(SlotTime(time)));
    EventEndNextDay(date, time);
  }

  lemma EventEndNextDay(date: string, time: string)
    requires CrossesMidnight(date, time) && NextDay(DateOfText(date)).year < 10000
    ensures IsDateTimeForm(EventEnd(date, time))
    ensures MomentOf(EventEnd(date, time)) ==
      Moment(NextDay(DateOfText(date)), Later(ClockMinutes(SlotTime(time)), EventMinutes))
  {
    var t := SlotTime(time);
    var next := NextDay(DateOfText(date));
    NextDaySpec(DateOfText(date));
    DateTextRoundTrip(next);
    AddMinutesClockRange(t, EventMinutes);
    MomentOfBuild(DateText(next), AddMinutesToTime(t, EventMinutes));
  }

  /** 2024-03-05 at 23:50: the intended end is 00:20 on 2024-03-06. */
  lemma EventEndExample(date: string, time: string)
    requires date == "2024-03-05" && time == "23:50"
    ensures EventEnd(date, time) == "20240306T002000"
  {
    ExampleShapes(date, time);
    ExampleDate(date);
    ExampleNextDayText();
    AddMinutesWrapExample(time);
    ExampleCarryGroups("2024-03-06", "00:20");
    BuildDateTimeParts("2024", "03", "06", "00", "20");
  }

  /** 2024-03-05 at 14:15: a slot inside the day ends at 14:45 on the same day. */
  lemma EventEndDayExample(date: string, time: string)
    requires date == "2024-03-05" && time == "14:15"
    ensures EventEndAsWritten(date, time) == "20240305T144500"
    ensures EventEnd(date, time) == "20240305T144500"
  {
    DayExampleShapes(time);
    DayExampleAdd(time);
    DayExampleEndGroups(date, "14:45");
    BuildDateTimeParts("2024", "03", "05", "14", "45");
  }

  lemma DayExampleShapes(time: string)
    requires time == "14:15"
    ensures SlotTime(time) == time && IsClockTime(time)
    ensures ClockMinutes(time) + EventMinutes < MinutesPerDay
  {
    assert time[..2] == "14" && time[3..] == "15";
    assert DigitsValue("14") == 14 && DigitsValue("15") == 15;
  }

  lemma DayExampleAdd(time: string)
    requires time == "14:15"
    ensures AddMinutesToTime(time, EventMinutes) == "14:45"
  {
    DayExampleRead(time);
    DayExamplePrint();
  }

  lemma DayExampleRead(time: string)
    requires time == "14:15"
    ensures ReadTime(time) == Some((14, 15))
  {
    DayExampleGroups(time);
    ReadTimeDigits("14", "15");
  }

  lemma DayExampleGroups(time: string)
    requires time == "14:15"
    ensures time == "14" + ":" + "15"
    ensures "14" != [] && AllDigits("14") && AllDigits("15")
    ensures DigitsValue("14") == 14 && DigitsValue("15") == 15
  {
  }

  lemma DayExamplePrint()
    ensures ShowTotal(Some((14, 15)), EventMinutes) == "14:45"
  {
    assert PrintClock(14 * 60 + 15 + 30) == "14:45";
  }

  lemma DayExampleEndGroups(date: string, t: string)
    requires date == "2024-03-05" && t == "14:45"
    ensures date == "2024" + "-" + "03" + "-" + "05" && t == "14" + ":" + "45"
    ensures '-' !in "2024" && '-' !in "03" && '-' !in "05" && ':' !in "14"
    ensures "2024" + "03" + "05" + "T" + "14" + "45" + "00" == "20240305T144500"
  {
  }

  lemma ExampleDate(date: string)
    requires date == "2024-03-05"
    ensures IsIsoDate(date) && DateOfText(date) == Date(2024, 3, 5) && ValidDate(Date(2024, 3, 5))
  {
    assert date[..4] == "2024" && date[5..7] == "03" && date[8..] == "05";
    ExampleDateDigits();
  }

  lemma ExampleDateDigits()
    ensures DigitsValue("2024") == 2024 && DigitsValue("03") == 3 && DigitsValue("05") == 5
  {
    ExampleDigitTexts();
    assert Pow10(2) == 100 && Pow10(4) == 10000;
    DigitsValueOfDigits(2024, 4);
    DigitsValueOfDigits(3, 2);
    DigitsValueOfDigits(5, 2);
  }

  lemma ExampleDigitTexts()
    ensures Digits(2024, 4) == "2024" && Digits(3, 2) == "03" && Digits(5, 2) == "05"
  {
    assert Digits(0, 1) == "0";
    assert Digits(3, 2) == Digits(0, 1) + "3";
    assert Digits(5, 2) == Digits(0, 1) + "5";
    assert Digits(2024, 4) == Digits(202, 3) + "4";
    assert Digits(202, 3) == Digits(20, 2) + "2";
    assert Digits(20, 2) == Digits(2, 1) + "0";
  }

  lemma ExampleNextDayText()
    ensures NextDay(Date(2024, 3, 5)) == Date(2024, 3, 6)
    ensures DateText(Date(2024, 3, 6)) == "2024-03-06"
  {
    assert Digits(2024, 4) == "2024";
    assert Digits(3, 2) == "03";
    assert Digits(6, 2) == "06";
  }

  lemma ExampleCarryGroups(d: string, t: string)
    requires d == "2024-03-06" && t == "00:20"
    ensures d == "2024" + "-" + "03" + "-" + "06" && t == "00" + ":" + "20"
    ensures '-' !in "2024" && '-' !in "03" && '-' !in "06" && ':' !in "00"
    ensures "2024" + "03" + "06" + "T" + "00" + "20" + "00" == "20240306T002000"
  {
  }
}
