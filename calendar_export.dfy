/** `handleCalendarAdd`: the "add to calendar" action. With no form on the page it
    opens Google Calendar's home page; otherwise it reads the appointment from the
    form, downloads it as an `.ics` file and opens a Google Calendar template for
    the same event. The event's end is the corrected one of `EventWindow`, which
    carries past midnight. */
module CalendarExport {
  import opened JsText
  import opened CalendarTime
  import opened EventWindow
  import opened IcsCalendar
  import opened GoogleCalendar

  /** The submitted values of the form, by field name (`new FormData(form)`). */
  type FormValues = map<string, string>

  const CalendarHome := "https://calendar.google.com/"
  const IcsFileName := "smilebright-appointment.ics"
  const IcsMediaType := "text/calendar;charset=utf-8"
  const SummaryPrefix := "Dental appointment - "
  const DefaultService := "Dental consultation"
  const DefaultDescription := "Dental appointment with SmileBright Dental Clinic."
  const ClinicLocation := "SmileBright Dental Clinic, 123 Smile Street, [City]"

  /** `(fd.get(key) || '').toString()`. */
  function FieldText(fd: FormValues, key: string): string {
    if key in fd then fd[key] else ""
  }

  /** `text || fallback`. */
  function OrDefault(text: string, fallback: string): string {
    if text == "" then fallback else text
  }

  /** The event both exports describe. */
  function AppointmentEvent(fd: FormValues): CalendarEvent {
    var date, time := FieldText(fd, "preferredDate"), FieldText(fd, "preferredTime");
    CalendarEvent(
      SummaryPrefix + OrDefault(FieldText(fd, "service"), DefaultService),
      OrDefault(FieldText(fd, "message"), DefaultDescription),
      ClinicLocation,
      EventStart(date, time),
      EventEnd(date, time))
  }

  /** What the action does: open a page, or download a file and open a page. */
  datatype CalendarAction =
    | OpenPage(url: string)
    | DownloadAndOpen(fileName: string, mediaType: string, ics: string, url: string)

  /** `handleCalendarAdd(form)`: `form` is the form found (the argument, else the
      appointment form, else the quick form), `nowMillis` and `isoNow` the clock's
      readings, `enc` the query percent-encoding. */
  function HandleCalendarAdd(form: Option<FormValues>, nowMillis: nat, isoNow: string,
                             enc: string -> string): (r: CalendarAction)
    ensures form.None? <==> r.OpenPage?
    ensures form.None? ==> r.url == CalendarHome
    ensures form.Some? ==> r.fileName == IcsFileName && r.mediaType == IcsMediaType
    ensures form.Some? ==> var ev := AppointmentEvent(form.value);
      && r.ics == GenerateIcs(ev, nowMillis, isoNow)
      && r.url == GoogleCalendarUrl(ev, enc)
  {
    match form
    case None => OpenPage(CalendarHome)
    case Some(fd) =>
      var ev := AppointmentEvent(fd);
      DownloadAndOpen(IcsFileName, IcsMediaType, GenerateIcs(ev, nowMillis, isoNow), GoogleCalendarUrl(ev, enc))
  }

  /** An empty date gives no timestamp; a date gives a start and an end. */
  lemma EventEndEmpty(date: string, time: string)
    ensures EventStart(date, time) == "" <==> date == ""
    ensures EventEnd(date, time) == "" <==> date == ""
  {
    if CrossesMidnight(date, time) {
      var next := DateText(NextDay(DateOfText(date)));
      assert next[4] == '-';
    }
  }

  /** The title and the description fall back to the defaults when the form leaves
      them empty; the location is the clinic's; start and end are present exactly
      when a date was given. */
  lemma AppointmentEventSpec(fd: FormValues)
    ensures var ev := AppointmentEvent(fd);
      && ev.summary == SummaryPrefix + (if FieldText(fd, "service") == "" then DefaultService else fd["service"])
      && ev.description == (if FieldText(fd, "message") == "" then DefaultDescription else fd["message"])
      && ev.location == ClinicLocation
      && (ev.start == "" <==> FieldText(fd, "preferredDate") == "")
      && (ev.end == "" <==> FieldText(fd, "preferredDate") == "")
  {
    EventEndEmpty(FieldText(fd, "preferredDate"), FieldText(fd, "preferredTime"));
  }

  /** The two exports agree on when the appointment is, for any event whose start
      and end are both present or both absent (as `AppointmentEvent`'s are): with
      them the calendar file has a DTSTART line at index 7 and a DTEND line right
      after it and Google gets `dates` as start/end; without them the file has
      neither line and Google gets no `dates`. */
  lemma ExportsAgree(ev: CalendarEvent, uid: string, stamp: string)
    requires ev.start == "" <==> ev.end == ""
    ensures var ls := IcsLines(ev, uid, stamp);
      var dated := ev.start != "";
      && (|ls| == if dated then 14 else 12)
      && (dated ==> ls[7] == "DTSTART:" + ev.start && ls[8] == "DTEND:" + ev.end)
      && (!dated ==> forall k :: 0 <= k < |ls| ==> !IsLineOf(ls[k], "DTSTART:") && !IsLineOf(ls[k], "DTEND:"))
      && (Get(GoogleParams(ev), "dates") == if dated then Some(ev.start + "/" + ev.end) else None)
  {
    IcsLinesStructure(ev, uid, stamp);
    GoogleParamsGet(ev);
  }

  /** On a real date and clock time both exports carry a 30-minute slot: the
      DTEND line's moment is the DTSTART line's advanced by 30 minutes. */
  lemma ExportWindow(fd: FormValues, uid: string, stamp: string)
    requires var date, time := FieldText(fd, "preferredDate"), FieldText(fd, "preferredTime");
      IsIsoDate(date) && IsClockTime(SlotTime(time)) && ValidDate(DateOfText(date))
      && NextDay(DateOfText(date)).year < 10000
    ensures var ev := AppointmentEvent(fd);
      var ls := IcsLines(ev, uid, stamp);
      && |ls| == 14 && ls[7] == "DTSTART:" + ev.start && ls[8] == "DTEND:" + ev.end
      && IsDateTimeForm(ev.start) && IsDateTimeForm(ev.end)
      && MomentOf(ev.end) == Advance(MomentOf(ev.start), EventMinutes)
      && Before(MomentOf(ev.start), MomentOf(ev.end))
  {
    var date, time := FieldText(fd, "preferredDate"), FieldText(fd, "preferredTime");
    AppointmentEventSpec(fd);
    ExportsAgree(AppointmentEvent(fd), uid, stamp);
    EventEndSpec(date, time);
  }

  /** A compact timestamp holds no line feed. */
  lemma DateTimeNoLineFeed(x: string)
    requires IsDateTimeForm(x)
    ensures '\n' !in x
  {
    assert x == x[..8] + "T" + x[9..];
    DigitsFree(x[..8], '\n');
    DigitsFree(x[9..], '\n');
  }

  /** What the action hands over, on a real date and clock time and at an instant
      given as `toISOString()` digit groups: the downloaded file splits into 14 lines
      whose DTSTART and DTEND are the event's bounds, the end 30 minutes after the
      start, and the link opened carries the same bounds as `dates`. */
  lemma CalendarAddWindow(fd: FormValues, nowMillis: nat, enc: string -> string,
                          y: string, mo: string, d: string, h: string, mi: string, s: string, ms: string)
    requires var date, time := FieldText(fd, "preferredDate"), FieldText(fd, "preferredTime");
      IsIsoDate(date) && IsClockTime(SlotTime(time)) && ValidDate(DateOfText(date))
      && NextDay(DateOfText(date)).year < 10000
    requires AllDigits(y) && AllDigits(mo) && AllDigits(d) && AllDigits(h)
    requires AllDigits(mi) && AllDigits(s) && AllDigits(ms)
    ensures var iso := (y + "-" + mo + "-" + d) + "T" + (h + ":" + mi + ":" + s) + "." + ms + "Z";
      var r := HandleCalendarAdd(Some(fd), nowMillis, iso, enc);
      var ev := AppointmentEvent(fd);
      var lines := SplitCrlf(r.ics);
      && r.DownloadAndOpen?
      && |lines| == 14 && lines[7] == "DTSTART:" + ev.start && lines[8] == "DTEND:" + ev.end
      && IsDateTimeForm(ev.start) && IsDateTimeForm(ev.end)
      && MomentOf(ev.end) == Advance(MomentOf(ev.start), EventMinutes)
      && r.url == GoogleCalendarUrl(ev, enc)
      && Get(GoogleParams(ev), "dates") == Some(ev.start + "/" + ev.end)
  {
    var iso := (y + "-" + mo + "-" + d) + "T" + (h + ":" + mi + ":" + s) + "." + ms + "Z";
    var ev := AppointmentEvent(fd);
    var uid, stamp := NatToString(nowMillis), DtStamp(iso);
    ExportWindow(fd, uid, stamp);
    DateTimeNoLineFeed(ev.start);
    DateTimeNoLineFeed(ev.end);
    GenerateIcsSpec(ev, nowMillis, y, mo, d, h, mi, s, ms);
    ExportsAgree(ev, uid, stamp);
  }
}
