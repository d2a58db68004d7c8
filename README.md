# SmileBright Dental Clinic site script, modelled in Dafny

The clinic's web site runs one script, `js/scripts.js`. This project models the
parts of it that compute something:

- the appointment timestamps (`buildDateTime`, `addMinutesToTime`);
- the iCalendar export (`escapeICS`, `generateICS`);
- the Google Calendar link (`buildGoogleCalendarUrl`);
- the "add to calendar" action that uses both exports (`handleCalendarAdd`);
- the appointment form check (`validateAppointmentForm` and its `setError` closure);
- the booking summary shown after a form is sent (the `simulateSuccess` loop of `handleFormSubmit`);
- the testimonials carousel (`setActive`, `next`, `prev` in `initCarousel`).

The modules follow the script:

- `JsText`: the JavaScript string built-ins the script uses. These are `trim`, `replace` with a string or a one-character global pattern, `split`, `join`, `parseInt`, `String(n)`, `padStart(2, '0')` and `%` on integers.
- `CalendarTime`: `buildDateTime` and `addMinutesToTime`.
- `EventWindow`: the start and end of the 30-minute appointment, as written and as intended (see Findings).
- `IcsText`: `escapeICS`, the TEXT escaping of section 3.3.11 of RFC 5545.
- `IcsCalendar`: `generateICS`, the `VCALENDAR`/`VEVENT` object of sections 3.4 and 3.6.1 of RFC 5545.
- `GoogleCalendar`: `buildGoogleCalendarUrl` as a `URLSearchParams` list.
- `CalendarExport`: `handleCalendarAdd`.
- `AppointmentValidation`: the form check, with a class `ErrorDisplay` whose maps and sets are the error texts and the `error` classes on the page.
- `BookingSummary`: the summary lines, the loop that builds them, and a class `SuccessOverlay` for the overlay and its lists.
- `Carousel`: a class over two arrays of `is-active` flags (items and dots) and the shown index.

The clock readings (`Date.now()`, `new Date().toISOString()`) are parameters of `GenerateIcs` and `HandleCalendarAdd`. So is the percent-encoding that `URLSearchParams.toString()` applies (`enc`). Whether the summary's request succeeded is the parameter `sent` of `SuccessOverlay.Submit`.

## Model

| member | source | states |
|---|---|---|
| JsText.Trim | js/scripts.js:391-399 | `String.prototype.trim`: drop the leading and then the trailing ECMAScript white space; its meaning is proved in `TrimSpec` |
| JsText.ReplaceAll | js/scripts.js:561 | `replace` with a one-character global pattern: each occurrence replaced in turn; its meaning is proved in `RemoveAllSpec` and, for the `escapeICS` chain, `EscapeChainIsEscapeText` |
| JsText.IndexOfFrom | js/scripts.js:460-467 | the first-match search inside `replace` with a string pattern (lines 460-467 and 562): the first index at or after `from` where the pattern occurs, proved first and complete in `IndexOfFromSpec` |
| JsText.ReplaceFirst | js/scripts.js:460-467 | `replace` with a string pattern: only the first occurrence is replaced, nothing when there is none (`ReplaceFirstChar`, `RelabelSkip`) |
| JsText.Split | js/scripts.js:567 | `split(c)`: the pieces between the occurrences of `c`, at least one; the round trips with `join` are `SplitSpec` and `SplitJoin` |
| JsText.ParseInt | js/scripts.js:567 | `parseInt(s, 10)`, with NaN as `None`; its cases are `ParseIntSignedDigits` and `ParseIntNoDigits` |
| JsText.NatToString | js/scripts.js:569-570 | `String(n)` of a natural number: a non-empty run of digits, which reads back as `n` (`NatToStringSpec`) |
| JsText.Join | js/scripts.js:598 | `join(sep)` on an array of strings: the pieces with `sep` between them; `SplitSpec`, `SplitJoin` and `SplitCrlfJoin` invert it |
| JsText.IntToString | js/scripts.js:569-570 | `String(v)` of an integer: the digits of its magnitude, after a `-` when it is negative (`PadStart2OfString`, `ShowTotalClock`) |
| JsText.PadStart2 | js/scripts.js:569-570 | `padStart(2, '0')`: a text of two or more characters is kept, one character gets a leading `0`, the empty text becomes `00` (`PadStart2OfString`) |
| JsText.TrimSpec | js/scripts.js:391-399 | `trim` removes exactly the leading and trailing white space: the input is white space, then the result, then white space. The result is empty iff the input is all white space, and otherwise starts and ends with a character that is not white space |
| JsText.RemoveAllSpec | js/scripts.js:561 | `replace(/c/g, '')` leaves no `c`, shortens the text by the number of `c`s, and, read from left to right, keeps every other character in turn and drops each `c`, so the others stay in their order |
| JsText.IndexOfFromSpec | js/scripts.js:460-467 | `indexOf` returns the first index where the pattern occurs, and `None` only when it occurs nowhere |
| JsText.ReplaceFirstChar | js/scripts.js:562 | `replace(':', '')` with a one-character pattern removes only the first occurrence |
| JsText.SplitSpec | js/scripts.js:567 | the pieces of `split(c)` hold no `c`, and joining them with `c` gives the text back |
| JsText.SplitJoin | js/scripts.js:567 | splitting a join of `c`-free pieces gives the pieces back: the other half of the round trip |
| JsText.ParseIntSignedDigits | js/scripts.js:567 | `parseInt(s, 10)` skips leading white space, honours a sign, and reads the longest digit run that follows |
| JsText.ParseIntNoDigits | js/scripts.js:567 | `parseInt` without a digit after the white space and the sign is NaN (`None`) |
| JsText.NatToStringSpec | js/scripts.js:569-570 | `String(n)` reads back as `n` and has no leading zero |
| JsText.JsRem | js/scripts.js:142-143 | JavaScript `%` on integers: the mathematical remainder on a non-negative dividend; on a negative one the result lies in `(-b, 0]`, taking the dividend's sign, and differs from the dividend by a multiple of `b` |
| CalendarTime.BuildDateTime | js/scripts.js:559-564 | the timestamp is empty iff the date is empty |
| CalendarTime.BuildDateTimeParts | js/scripts.js:559-564 | `y-m-d` with `hh:mm` gives `ymdThhmm00`: every dash removed, the first colon removed, `00` seconds added |
| CalendarTime.BuildDateTimeRoundTrip | js/scripts.js:559-564 | for a well-formed date and clock time the timestamp has the `YYYYMMDDTHHMMSS` form of section 3.3.5 of RFC 5545 with zero seconds, and reads back as that date and that time |
| CalendarTime.BuildDateTimeExample | js/scripts.js:559-564 | `2024-03-05` at `14:15` is `20240305T141500` |
| CalendarTime.DigitsValueOfDigits | js/scripts.js:569-570 | a number below 10^w printed to width w reads back as the number |
| CalendarTime.DigitsOfDigitsValue | js/scripts.js:569-570 | a digit string is the text of its value at its own width |
| CalendarTime.PadStart2OfString | js/scripts.js:569-570 | `String(v).padStart(2, '0')` is the two-digit text of any `v` below 100 |
| CalendarTime.ClockTextRoundTrip | js/scripts.js:569-571 | every minute of the day prints as a clock time `HH:MM` that reads back as that minute |
| CalendarTime.ClockMinutesRoundTrip | js/scripts.js:569-571 | every clock time is the text of its minute, which is below 1440 |
| CalendarTime.OrZero | js/scripts.js:567 | `v` or `'0'`: an empty piece of the split time reads as `'0'` (`AddMinutesEmptyMinutes`) |
| CalendarTime.ReadTime | js/scripts.js:567 | `timeStr.split(':')` with each part read by `parseInt(v, 10)` (an empty part as `'0'`), destructured into `[h, m]`, with `None` for a NaN or missing part (`ReadTimeDigits`, `ReadTimeNoColon`) |
| CalendarTime.PrintClock | js/scripts.js:569-571 | the hour `Math.floor((total % 1440) / 60)` and the minute `total % 60`, each padded to two digits (`PrintClockNonNegative`) |
| CalendarTime.ShowTotal | js/scripts.js:568-571 | `total = h * 60 + m + minutesToAdd` printed as a clock, and `NaN:NaN` when the time was unreadable (`ShowTotalClock`, `AddMinutesNoColon`) |
| CalendarTime.AddMinutesToTime | js/scripts.js:566-572 | `addMinutesToTime`: read the time, add the minutes, print modulo a day; `NaN:NaN` when a part is NaN (`AddMinutesDigits`, `AddMinutesClockRange`, `AddMinutesNoColon`) |
| CalendarTime.ReadTimeDigits | js/scripts.js:567 | digit hours and digit minutes are read as their values |
| CalendarTime.ReadTimeNoColon | js/scripts.js:567 | without a `:` the destructured minute is `undefined` and the time is unreadable |
| CalendarTime.PrintClockNonNegative | js/scripts.js:569-571 | a non-negative total prints as the clock text of the total modulo 1440 |
| CalendarTime.ShowTotalClock | js/scripts.js:568-571 | `h*60 + m + k`, when non-negative, prints as the clock text of its minute of the day |
| CalendarTime.AddMinutesDigits | js/scripts.js:566-572 | for digit hours `a` and minutes `b`, `addMinutesToTime(a:b, k)` is the clock text of `(a*60 + b + k) mod 1440` |
| CalendarTime.AddMinutesOnClock | js/scripts.js:566-572 | on a clock time the result is the clock text of the minute `k` later, modulo a day |
| CalendarTime.AddMinutesClockRange | js/scripts.js:566-572 | on a clock time the result is again a 5-character `HH:MM` with hours 00..23 and minutes 00..59, denoting `(minute + k) mod 1440` |
| CalendarTime.AddMinutesEmptyMinutes | js/scripts.js:567 | an empty minute part (`"10:"`) counts as 0 minutes |
| CalendarTime.AddMinutesNoColon | js/scripts.js:566-572 | a time without a `:` gives `NaN:NaN` |
| CalendarTime.AddMinutesWrapExample | js/scripts.js:566-572 | `23:50` plus 30 is `00:20`: the clock wraps and nothing carries into a date |
| EventWindow.SlotTime | js/scripts.js:528 | the slot time: the chosen time, or `10:00` when none is chosen |
| EventWindow.EventStart | js/scripts.js:527 | `start = buildDateTime(date, time)`; the moment it denotes is `MomentOfBuild`'s, and `EventEndSpec` puts the end 30 minutes after it |
| EventWindow.EventEndAsWritten | js/scripts.js:528 | the script's end: `buildDateTime` of the date and of the slot time (default `10:00`) plus 30 minutes; its defect is `EventEndAsWrittenBeforeStart` |
| EventWindow.EventEnd | js/scripts.js:528 | the corrected end: the same value before midnight, the next day's date past it; proved 30 minutes after the start in `EventEndSpec` |
| EventWindow.NextDaySpec | js/scripts.js:528 | the day after a real Gregorian day is a real day, and it comes later |
| EventWindow.DateTextRoundTrip | js/scripts.js:527-528 | a real date with a four-digit year prints as a date input's value and reads back as itself |
| EventWindow.AdvanceIsLater | js/scripts.js:527-528 | from a real moment, a positive number of minutes forward is later |
| EventWindow.MomentOfBuild | js/scripts.js:527 | the timestamp of a well-formed date and clock time denotes that day and that minute |
| EventWindow.EventEndAsWrittenMoment | js/scripts.js:527-528 | the end as written is on the start's day, at the start's minute plus 30 modulo 1440 |
| EventWindow.EventEndAsWrittenBeforeStart | js/scripts.js:528 | from 23:30 on, the end as written comes before the start |
| EventWindow.EventEndAsWrittenExample | js/scripts.js:527-528 | `2024-03-05` at `23:50` starts at `20240305T235000` and, as written, ends earlier at `20240305T002000` |
| EventWindow.EventEndSpec | js/scripts.js:527-528 | on every real date and clock time the intended end is the start advanced by 30 minutes, carried into the next day when needed, and it comes after the start |
| EventWindow.EventEndDayExample | js/scripts.js:527-528 | `2024-03-05` at `14:15`, a slot inside the day, ends at `20240305T144500`, both as the script computes it and as corrected |
| EventWindow.EventEndExample | js/scripts.js:527-528 | `2024-03-05` at `23:50` ends, as intended, at `20240306T002000` |
| IcsText.EscapeChain | js/scripts.js:602-606 | the four global replacements of `escapeICS`, backslash first; equal to the reference escape by `EscapeChainIsEscapeText` |
| IcsText.EscapeIcs | js/scripts.js:601-607 | `escapeICS(text)`: a missing text is `''`, a present one goes through the chain (`EscapeIcsSpec`) |
| IcsText.EscapeChainIsEscapeText | js/scripts.js:602-606 | the four global replacements, backslash first, equal the character-by-character escape of section 3.3.11 of RFC 5545 |
| IcsText.EscapeTextLength | js/scripts.js:602-606 | the output is as long as the input plus one per special character |
| IcsText.EscapeTextPlain | js/scripts.js:602-606 | text without `\`, `;`, `,` or line feed is left as it is |
| IcsText.UnescapeEscape | js/scripts.js:601-607 | unescaping the escape gives the text back. The unescaping rejects a bare `;`, `,` or line feed, so the escape holds none of them |
| IcsText.EscapeTextNoLineFeed | js/scripts.js:606 | the escape holds no line feed |
| IcsText.EscapeIcsSpec | js/scripts.js:601-607 | a missing text gives `''`; a present one gives its escape, which unescapes back to the text |
| IcsText.EscapeIcsExample | js/scripts.js:601-607 | `a;b,c`, a line feed and `\d` escape to `a\;b\,c\n\\d` |
| IcsCalendar.DtStamp | js/scripts.js:575-579 | `toISOString().replace(/[-:]/g, '').split('.')[0].concat('Z')` (`DtStampOfIso`) |
| IcsCalendar.Entries | js/scripts.js:581-596 | the fourteen entries of the array literal, DTSTART and DTEND empty when their value is (`EntriesStructure`) |
| IcsCalendar.IcsLines | js/scripts.js:581-597 | the entries for an event, escaped, after `filter(Boolean)` (`IcsLinesStructure`) |
| IcsCalendar.DropEmpty | js/scripts.js:597 | `filter(Boolean)` on strings: the non-empty entries in order (`DropEmptyNonEmpty`, `DropEmptyKeeps`) |
| IcsCalendar.IcsDocument | js/scripts.js:581-598 | the kept lines joined by CRLF, for a given UID stem and DTSTAMP; it splits back into those lines (`IcsDocumentLines`) |
| IcsCalendar.GenerateIcs | js/scripts.js:574-599 | `generateICS`: the lines joined by CRLF, with the UID from `Date.now()` and the DTSTAMP from `toISOString()` (`GenerateIcsSpec`) |
| IcsCalendar.DtStampOfIso | js/scripts.js:575-579 | for a `toISOString()` value, the DTSTAMP is the compact UTC form `YYYYMMDDTHHmmssZ`, with the milliseconds dropped |
| IcsCalendar.DropEmptyNonEmpty | js/scripts.js:597 | nothing that `filter(Boolean)` keeps is empty |
| IcsCalendar.DropEmptyKeeps | js/scripts.js:597 | `filter(Boolean)` keeps a list without empty strings as it is |
| IcsCalendar.EntriesStructure | js/scripts.js:581-597 | for any field values, the lines open with `BEGIN:VCALENDAR` and close with `END:VCALENDAR`. None is empty. There are 12 lines plus one per non-empty bound. A `DTSTART:` line is present iff the start is non-empty, and it is line 7. The same holds for `DTEND:`, which follows it |
| IcsCalendar.IcsLinesStructure | js/scripts.js:581-597 | the same structure for an event's lines, with the escaped texts |
| IcsCalendar.SplitCrlfJoin | js/scripts.js:598 | splitting a CRLF join of lines without a line feed gives the lines back |
| IcsCalendar.IcsDocumentLines | js/scripts.js:581-598 | the document is exactly its content lines joined by CRLF |
| IcsCalendar.GenerateIcsSpec | js/scripts.js:574-599 | at a given instant, the document splits back into the event's lines. The UID is `<milliseconds>@smilebrightdental.com` and the DTSTAMP is the instant in compact UTC form |
| GoogleCalendar.SetParam | js/scripts.js:612-617 | `URLSearchParams.set`: the first pair of that name takes the value, later ones go, or the pair is appended (`SetParamSpec`, `SetParamAbsent`) |
| GoogleCalendar.GoogleParams | js/scripts.js:611-617 | the four `set` calls in order, `dates` only when both bounds are present (`GoogleParamsList`, `GoogleParamsGet`) |
| GoogleCalendar.Pieces | js/scripts.js:618 | one `name=value` piece per parameter, in order, each side through the encoding `enc` (`GoogleUrlQuery`) |
| GoogleCalendar.Serialize | js/scripts.js:618 | `params.toString()`: the pieces joined by `&` (`GoogleUrlQuery`) |
| GoogleCalendar.SetParamSpec | js/scripts.js:612-617 | after `set(name, v)`, `get(name)` is `v`, there is exactly one pair with that name, and every other name is unchanged |
| GoogleCalendar.SetParamAbsent | js/scripts.js:612-617 | setting a name that is absent appends the pair |
| GoogleCalendar.GoogleParamsList | js/scripts.js:611-617 | the parameters are `text`, then `dates` = `start/end` exactly when both bounds are non-empty, then `details` and `location` |
| GoogleCalendar.GoogleParamsGet | js/scripts.js:611-617 | the link carries the title, the details and the location, and carries `dates` iff both bounds are non-empty |
| GoogleCalendar.GoogleCalendarUrl | js/scripts.js:618 | the link is the base followed by `&` |
| GoogleCalendar.GoogleUrlQuery | js/scripts.js:618 | when the encoding never yields a bare `&`, the query splits at `&` into one `name=value` piece per parameter |
| CalendarExport.FieldText | js/scripts.js:522-525 | `(fd.get(key) or '').toString()`: a field's submitted text, `''` when the form has none |
| CalendarExport.OrDefault | js/scripts.js:524-525 | `text` or `fallback` on strings: the fallback exactly when the text is empty (`AppointmentEventSpec`) |
| CalendarExport.AppointmentEvent | js/scripts.js:520-555 | the one event both exports receive: the title `Dental appointment - ` and the service or `Dental consultation`, the message or the default description, the clinic's location, the start `buildDateTime(date, time)`, and as end the corrected `EventEnd`, not the value line 528 computes (`AppointmentEventSpec`, `EventEndEmpty`, `ExportWindow`) |
| CalendarExport.HandleCalendarAdd | js/scripts.js:513-557 | with no form found, the action opens the Google Calendar home page. With a form, it downloads `smilebright-appointment.ics` as `text/calendar;charset=utf-8`, whose content is `generateICS` of the form's event, with the corrected end, at the given instant, and opens the Google Calendar link of that same event |
| CalendarExport.CalendarAddWindow | js/scripts.js:520-556 | for the corrected export: on a real date and clock time, the file `handleCalendarAdd` downloads splits into 14 lines with `DTSTART` at 7 and `DTEND` at 8, the end 30 minutes after the start, and the link it opens carries the same bounds as `dates` |
| CalendarExport.EventEndEmpty | js/scripts.js:527-528 | start and end are empty exactly when the date is empty |
| CalendarExport.AppointmentEventSpec | js/scripts.js:522-537 | the title is `Dental appointment - ` and the service or `Dental consultation`. The description is the message or the default text. The location is the clinic's. Start and end are present iff a date was given |
| CalendarExport.ExportsAgree | js/scripts.js:531-555 | with dates, the calendar file has 14 lines with `DTSTART:` at 7 and `DTEND:` at 8, and the link gets `dates` = `start/end`. Without dates, the file has 12 lines and neither, and the link gets no `dates` |
| CalendarExport.ExportWindow | js/scripts.js:522-555 | for the corrected export (the end carried past midnight, see Findings): on a real date and clock time, the file's `DTEND` is 30 minutes after its `DTSTART`, and later |
| AppointmentValidation.MatchesEmail | js/scripts.js:404 | the language of `/^[^\s@]+@[^\s@]+\.[^\s@]+$/`: three runs without white space or `@`, the first two joined by `@` and the last two by `.`; characterised in `EmailPatternMeaning` |
| AppointmentValidation.MatchesPhone | js/scripts.js:410 | the language of `/^[0-9+\s-]{8,15}$/`: 8 to 15 characters, each a digit, `+`, white space or `-` (`PhoneAccepted`, `PhoneRejected`) |
| AppointmentValidation.FieldMessage | js/scripts.js:391-429 | the message each check passes to `setError`, `''` when the field passes (`AcceptedMeaning`, `ShowAllSpec`) |
| AppointmentValidation.IsSpam | js/scripts.js:399-434 | a honeypot that is present and not blank after `trim` (`HoneypotRejects`) |
| AppointmentValidation.Accepted | js/scripts.js:374-437 | the return value: no present field fails and the honeypot is blank; its meaning field by field is `AcceptedMeaning` |
| AppointmentValidation.EmailPatternMeaning | js/scripts.js:404 | `/^[^\s@]+@[^\s@]+\.[^\s@]+$/` accepts exactly the texts with no white space and exactly one `@`, not in first place, followed by a `.` with at least one character on each side |
| AppointmentValidation.EmailAccepted | js/scripts.js:404 | `a@b.co` is accepted |
| AppointmentValidation.EmailRejected | js/scripts.js:404 | `a@b`, `a.com` and `''` are rejected |
| AppointmentValidation.PhoneAccepted | js/scripts.js:410 | `+1 234-5678` is accepted |
| AppointmentValidation.PhoneRejected | js/scripts.js:410 | `123` and `abcdefg1234` are rejected |
| AppointmentValidation.AcceptedMeaning | js/scripts.js:374-437 | with every field's elements on the page, the form is accepted iff all of these hold: the trimmed name and message are non-empty; service, date and time are chosen; the terms are ticked; the e-mail and the phone pass their patterns; the honeypot is blank |
| AppointmentValidation.HoneypotRejects | js/scripts.js:431-434 | a filled honeypot always rejects, and changes no field's message |
| AppointmentValidation.MissingSlotsAccept | js/scripts.js:380 | with no error elements on the page, every non-spam form is accepted, because `setError` returns before clearing `isValid` |
| AppointmentValidation.ShowErrorAt | js/scripts.js:377-389 | `setError` writes only the named error element, and only when it exists |
| AppointmentValidation.MarkErrorAt | js/scripts.js:377-389 | `setError` adds the `error` class for a message and removes it for none, on the named field only |
| AppointmentValidation.ShowAllSpec | js/scripts.js:401-429 | after the checks, each existing error element shows its field's message |
| AppointmentValidation.MarkAllSpec | js/scripts.js:401-429 | after the checks, the marked fields are exactly the present fields that fail |
| AppointmentValidation.ErrorDisplay.SetError | js/scripts.js:377-389 | the page's texts and marks change as `ShowError`/`MarkError` say. `isValid` is cleared exactly when the element exists and the message is non-empty |
| AppointmentValidation.ErrorDisplay.Validate | js/scripts.js:374-437 | after the call, every present error element shows its field's message, the marked fields are the present failing ones, and the result is `Accepted` |
| BookingSummary.Filled | js/scripts.js:458 | `data[key]` is truthy: the field was submitted with a non-empty value (`Item`, `FilledKeysMember`) |
| BookingSummary.Line | js/scripts.js:468 | the item text: the label, `: ` and the submitted value (`SummaryLinesAreFilled`) |
| BookingSummary.Label | js/scripts.js:460-467 | the seven chained `replace` calls applied to the key (`LabelOfRule`, `RelabelSkip`, the `Label...` lemmas) |
| BookingSummary.SummaryLines | js/scripts.js:457-471 | the items of the fields in order, the specification of the loop (`SummaryItems`, `SummaryLinesAreFilled`) |
| BookingSummary.Item | js/scripts.js:458-470 | a field contributes one item iff its value is non-empty, and none otherwise |
| BookingSummary.SummaryItems | js/scripts.js:457-471 | the loop builds exactly `SummaryLines`: the items of the fields, in field order |
| BookingSummary.FilledKeys | js/scripts.js:458 | every key kept has a non-empty value |
| BookingSummary.SummaryLinesAreFilled | js/scripts.js:457-471 | the summary is `label: value` for each filled field, in the order of the field list |
| BookingSummary.FilledKeysMember | js/scripts.js:458 | a field is summarised iff it is listed and was submitted non-empty |
| BookingSummary.SummaryLength | js/scripts.js:457-471 | one line per filled field, and so at most one per listed field |
| BookingSummary.AllFilledSummary | js/scripts.js:457-471 | with every field filled, there is one line per field, in field order |
| BookingSummary.RelabelSkip | js/scripts.js:460-467 | rules whose pattern does not occur in the key leave it as it is |
| BookingSummary.LabelOfRule | js/scripts.js:460-467 | a key equal to a rule's pattern gets that rule's label, provided no earlier pattern occurs in the key and no later one in the label |
| BookingSummary.LabelPreferredDate | js/scripts.js:461 | `preferredDate` is labelled `Preferred date` |
| BookingSummary.LabelPreferredTime | js/scripts.js:462 | `preferredTime` is labelled `Preferred time` |
| BookingSummary.LabelService | js/scripts.js:463 | `service` is labelled `Service` |
| BookingSummary.LabelPhone | js/scripts.js:464 | `phone` is labelled `Phone` |
| BookingSummary.LabelName | js/scripts.js:465 | `name` is labelled `Name` |
| BookingSummary.LabelEmail | js/scripts.js:466 | `email` is labelled `Email` |
| BookingSummary.LabelMessage | js/scripts.js:467 | `message` is labelled `Message` |
| BookingSummary.LabelFullName | js/scripts.js:460-467 | `fullName` holds no lower-case `name`, so its label is the key itself |
| BookingSummary.SuccessOverlay.ClearSummary | js/scripts.js:446-449 | the summary element is emptied and the overlay is unchanged |
| BookingSummary.SuccessOverlay.SimulateSuccess | js/scripts.js:451-476 | with a non-empty field list, one list of the summary lines is appended; the overlay is opened in every case |
| BookingSummary.SuccessOverlay.Submit | js/scripts.js:445-502 | after the summary is cleared, a successful request leaves exactly one list (when fields are listed) and the overlay open. A failed one leaves nothing and the overlay as it was |
| Carousel.Flags | js/scripts.js:136-140 | the `is-active` classes after `setActive(i)`: element `k` is active exactly when `k == i` (`FlagsActiveCount`, `Carousel.SetActive`) |
| Carousel.NextTimes | js/scripts.js:142-147 | `k` calls of `next`, pressed or fired by the 7-second timer (`NextTimesMod`, `FullCycle`) |
| Carousel.NextIndex | js/scripts.js:142 | `(index + 1) % items.length` (`NextIndexValue`) |
| Carousel.PrevIndex | js/scripts.js:143 | `(index - 1 + items.length) % items.length` (`PrevIndexValue`) |
| Carousel.NextIndexValue | js/scripts.js:142 | `next` goes one item on, and from the last item to the first |
| Carousel.PrevIndexValue | js/scripts.js:143 | `prev` goes one item back, and from the first item to the last |
| Carousel.StepsInRange | js/scripts.js:142-143 | from a shown item, `next` and `prev` stay in `[0, n)` |
| Carousel.PrevNext | js/scripts.js:142-143 | `prev` undoes `next` and `next` undoes `prev` |
| Carousel.NextTimesMod | js/scripts.js:142 | after `k` steps forward the carousel shows item `(i + k) mod n` |
| Carousel.FullCycle | js/scripts.js:142 | `n` steps forward return to the item shown before |
| Carousel.FlagsActiveCount | js/scripts.js:136-140 | after `setActive(i)`, exactly one element of a row is active when `i` names one, and none otherwise |
| Carousel.Carousel.constructor | js/scripts.js:177 | the carousel starts on item 0, with item 0 and dot 0 the only active ones |
| Carousel.Carousel.SetActive | js/scripts.js:136-140 | item `k` and dot `k` are active exactly when `k == i`, and the index becomes `i` |
| Carousel.Carousel.Next | js/scripts.js:142 | the index becomes `(index + 1) % n`, stays in `[0, n)`, and exactly that item and dot are active |
| Carousel.Carousel.Prev | js/scripts.js:143 | the index becomes `(index - 1 + n) % n`, stays in `[0, n)`, and exactly that item and dot are active |

## Left out

- `addMinutesToTime` counts an empty minute part as 0 (`"10:"` reads as 10:00). A time with no `:` (`"10"`) leaves the minute `undefined` and gives `NaN:NaN` (js/scripts.js:567-571). The model follows the code (`AddMinutesEmptyMinutes`, `AddMinutesNoColon`).
- JavaScript numbers are IEEE doubles; the model uses unbounded integers. `parseInt` of a digit run beyond 2^53, or a total `h*60 + m + k` beyond it, is rounded by the script and exact in the model.
- JavaScript strings are sequences of UTF-16 code units; the model's strings are sequences of characters. On characters outside the Basic Multilingual Plane, `trim`, `split` and the `[^\s@]` class of the e-mail pattern see two code units in the script and one character in the model.
- Percent-encoding: the form-urlencoded serializer of `URLSearchParams` (WHATWG URL) is the parameter `enc`. The model stops at the ordered parameter list and its `name=value` pieces.
- Clocks: `Date.now()` and `new Date().toISOString()` are parameters. `GenerateIcsSpec` covers ISO values made of digit groups.
- Line folding (section 3.1 of RFC 5545) is not done by the script, so long lines stay long here too.
- `escapeICS` does not escape a carriage return, and neither does the model. `GenerateIcsSpec` asks that the start and end hold no line feed, which `handleCalendarAdd`'s timestamps never do.
- `Blob`, `URL.createObjectURL`, the temporary link and `window.open` are browser I/O. `CalendarAction` names what they would do.
- DOM lookups: `handleCalendarAdd` receives the form it found as an `Option`. A control missing from that form reads as `''` through `FieldText`, as `fd.get(key) || ''` does (js/scripts.js:522-525). `validateAppointmentForm` reads `form.fullName.value` to `form.acceptTerms.checked` directly (js/scripts.js:391-398), so a missing control makes it throw; its record `AppointmentForm` assumes those controls exist, and only the honeypot `website` is optional, as `form.website?` makes it.
- The summary overlay and its element are assumed present. When `#bookingSummary` is missing, the script builds no list; that case is not modelled.
- `handleCalendarAdd` computes a `name` from `name`/`fullName` that it never uses. The model leaves it out.
- `HandleCalendarAdd` uses the corrected end `EventEnd`, not the wrapped one (see Findings).
- `EventEndSpec`, `ExportWindow` and `CalendarAddWindow` require the next day's year to be below 10000. The model reads dates only as 10-character `YYYY-MM-DD` texts (`IsIsoDate`), and the DATE-TIME form of section 3.3.5 of RFC 5545 has a four-digit year, so on 9999-12-31 from 23:30 on the corrected end cannot be written in that form.
- `Carousel.Carousel.Next` and `Carousel.Carousel.Prev` require at least one item. With no items, the script computes `% 0`, which is NaN.
- The carousel timers (`setInterval`, hover pausing) are not modelled; `Carousel.FullCycle` covers `n` automatic steps.
- The busy class on the submit button, `fetch`, `alert` and the 500 ms demo delay of `handleFormSubmit` are I/O and timers, so the model keeps only whether the request succeeded.
- Navigation, service toggles, scroll reveal, counters, the year, the demo toggle and the doctor modal are presentation code over elements the model does not have.

## Findings

| source | as written | input that shows it | evidently intended | confidence | as-written member | corrected member |
|---|---|---|---|---|---|---|
| js/scripts.js:528 | the end is `buildDateTime(date, addMinutesToTime(time, 30))`. The clock wraps at midnight but the date is kept, so from 23:30 on `DTEND` comes before `DTSTART`. Section 3.8.2.2 of RFC 5545 requires DTEND to be later than DTSTART | date `2024-03-05`, time `23:50`: start `20240305T235000`, end `20240305T002000` | the end is 30 minutes after the start, on the next day when it passes midnight (`20240306T002000`) | not executed | EventWindow.EventEndAsWrittenExample | EventWindow.EventEndSpec |
