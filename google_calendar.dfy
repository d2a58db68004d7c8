/** `buildGoogleCalendarUrl`: the Google Calendar event-template link. The query is
    built by `URLSearchParams.set` calls; the percent-encoding its serializer applies
    to each name and value is a parameter of the model. */
module GoogleCalendar {
  import opened JsText
  import opened IcsCalendar

  /** The name-value list of a `URLSearchParams`, in order. */
  type Params = seq<(string, string)>

  const CalendarBase := "https://calendar.google.com/calendar/render?action=TEMPLATE"

  /** `params.get(name)`: the value of the first pair with that name. */
  function Get(ps: Params, name: string): Option<string> {
    if ps == [] then None else if ps[0].0 == name then Some(ps[0].1) else Get(ps[1..], name)
  }

  /** Number of pairs with a given name. */
  function CountName(ps: Params, name: string): nat {
    if ps == [] then 0 else (if ps[0].0 == name then 1 else 0) + CountName(ps[1..], name)
  }

  /** The walk behind `set`: the first pair named `name` takes the new value, the
      later ones are removed, and the pair is appended if there was none;
      `placed` says whether the new pair is already out. */
  function SetFrom(ps: Params, name: string, value: string, placed: bool): Params {
    if ps == [] then (if placed then [] else [(name, value)])
    else if ps[0].0 == name then (if placed then [] else [(name, value)]) + SetFrom(ps[1..], name, value, true)
    else [ps[0]] + SetFrom(ps[1..], name, value, placed)
  }

  /** `params.set(name, value)`. */
  function SetParam(ps: Params, name: string, value: string): Params {
    SetFrom(ps, name, value, false)
  }

  lemma {:induction false} SetFromGet(ps: Params, name: string, value: string, placed: bool, other: string)
    requires other != name
    ensures Get(SetFrom(ps, name, value, placed), name) == if placed then None else Some(value)
    ensures Get(SetFrom(ps, name, value, placed), other) == Get(ps, other)
    ensures CountName(SetFrom(ps, name, value, placed), name) == if placed then 0 else 1
    ensures CountName(SetFrom(ps, name, value, placed), other) == CountName(ps, other)
  {
    var r := SetFrom(ps, name, value, placed);
    if ps == [] {
      if !placed {
        assert r[1..] == [];
      }
    } else {
      SetFromGet(ps[1..], name, value, ps[0].0 == name || placed, other);
      var rest := SetFrom(ps[1..], name, value, ps[0].0 == name || placed);
      if ps[0].0 == name && !placed {
        assert r == [(name, value)] + rest;
        assert r[1..] == rest;
      } else if ps[0].0 == name {
        assert r == rest;
      } else {
        assert r == [ps[0]] + rest;
        assert r[1..] == rest;
      }
    }
  }

  /** After `set`, `get(name)` is the new value and there is exactly one pair with
      that name; every other name keeps its first value and its number of pairs. */
  lemma SetParamSpec(ps: Params, name: string, value: string, other: string)
    requires other != name
    ensures Get(SetParam(ps, name, value), name) == Some(value)
    ensures CountName(SetParam(ps, name, value), name) == 1
    ensures Get(SetParam(ps, name, value), other) == Get(ps, other)
    ensures CountName(SetParam(ps, name, value), other) == CountName(ps, other)
  {
    SetFromGet(ps, name, value, false, other);
  }

  /** Setting a name that is not there appends the pair. */
  lemma {:induction false} SetParamAbsent(ps: Params, name: string, value: string)
    requires Get(ps, name).None?
    ensures SetParam(ps, name, value) == ps + [(name, value)]
  {
    if ps != [] {
      SetParamAbsent(ps[1..], name, value);
      assert ps == [ps[0]] + ps[1..];
    }
  }

  /** The four `set` calls of the script, the second only when both bounds are
      non-empty. */
  function GoogleParams(ev: CalendarEvent): Params {
    var p1 := SetParam([], "text", ev.summary);
    var p2 := if ev.start != "" && ev.end != "" then SetParam(p1, "dates", ev.start + "/" + ev.end) else p1;
    var p3 := SetParam(p2, "details", ev.description);
    SetParam(p3, "location", ev.location)
  }

  function DatesParam(ev: CalendarEvent): Params {
    if ev.start != "" && ev.end != "" then [("dates", ev.start + "/" + ev.end)] else []
  }

  lemma GetDetailsAbsent(p2: Params, dates: Params, text: string)
    requires p2 == [("text", text)] + dates
    requires dates == [] || (|dates| == 1 && dates[0].0 == "dates")
    ensures Get(p2, "details").None? && Get(p2, "location").None?
  {
    assert p2[1..] == dates;
    assert Get(p2, "details") == Get(dates, "details");
    assert Get(p2, "location") == Get(dates, "location");
    if dates != [] {
      assert dates[1..] == [];
      assert Get(dates, "details") == Get([], "details");
      assert Get(dates, "location") == Get([], "location");
    }
    GetLocationAbsent(p2, "");
  }

  lemma GetLocationAbsent(p2: Params, details: string)
    requires Get(p2, "location").None?
    ensures Get(p2 + [("details", details)], "location").None?
    decreases |p2|
  {
    if p2 != [] {
      assert (p2 + [("details", details)])[1..] == p2[1..] + [("details", details)];
      GetLocationAbsent(p2[1..], details);
    } else {
      assert [("details", details)][1..] == [];
    }
  }

  /** The query holds `text`, then `dates` exactly when both bounds are non-empty,
      then `details` and `location`, each once. */
  lemma GoogleParamsList(ev: CalendarEvent)
    ensures GoogleParams(ev) ==
      [("text", ev.summary)] + DatesParam(ev) + [("details", ev.description), ("location", ev.location)]
  {
    var p1 := SetParam([], "text", ev.summary);
    SetParamAbsent([], "text", ev.summary);
    var dates := DatesParam(ev);
    var p2 := if ev.start != "" && ev.end != "" then SetParam(p1, "dates", ev.start + "/" + ev.end) else p1;
    if ev.start != "" && ev.end != "" {
      SetParamAbsent(p1, "dates", ev.start + "/" + ev.end);
    }
    assert p2 == [("text", ev.summary)] + dates;
    GetDetailsAbsent(p2, dates, ev.summary);
    SetParamAbsent(p2, "details", ev.description);
    GetLocationAbsent(p2, ev.description);
    SetParamAbsent(p2 + [("details", ev.description)], "location", ev.location);
  }

  /** What the calendar sees: the title, the details and the location always, and a
      `dates` value `<start>/<end>` exactly when both bounds are non-empty. */
  lemma GoogleParamsGet(ev: CalendarEvent)
    ensures Get(GoogleParams(ev), "text") == Some(ev.summary)
    ensures Get(GoogleParams(ev), "details") == Some(ev.description)
    ensures Get(GoogleParams(ev), "location") == Some(ev.location)
    ensures Get(GoogleParams(ev), "dates") ==
      if ev.start != "" && ev.end != "" then Some(ev.start + "/" + ev.end) else None
  {
    GoogleParamsList(ev);
    var ps := GoogleParams(ev);
    var d := DatesParam(ev);
    var tail := [("details", ev.description), ("location", ev.location)];
    assert ps[0] == ("text", ev.summary);
    assert ps[1..] == d + tail;
    GetTail(ev.description, ev.location);
    if d == [] {
      assert ps[1..] == tail;
    } else {
      assert (d + tail)[0] == ("dates", ev.start + "/" + ev.end);
      assert (d + tail)[1..] == tail;
    }
  }

  lemma GetTail(description: string, location: string)
    ensures var tail := [("details", description), ("location", location)];
      && Get(tail, "details") == Some(description) && Get(tail, "location") == Some(location)
      && Get(tail, "dates") == None && Get(tail, "text") == None
  {
    var tail := [("details", description), ("location", location)];
    assert tail[1..] == [("location", location)];
    assert tail[1..][1..] == [];
    assert Get(tail, "location") == Get(tail[1..], "location");
    assert Get(tail, "dates") == Get(tail[1..], "dates") == Get(tail[1..][1..], "dates");
    assert Get(tail, "text") == Get(tail[1..], "text") == Get(tail[1..][1..], "text");
  }

  // ---- serialization ----

  /** The `name=value` pieces, with `enc` standing for the form-urlencoded
      percent-encoding of the serializer. */
  function Pieces(ps: Params, enc: string -> string): (r: seq<string>)
    ensures |r| == |ps|
  {
    if ps == [] then [] else [enc(ps[0].0) + "=" + enc(ps[0].1)] + Pieces(ps[1..], enc)
  }

  /** `params.toString()`. */
  function Serialize(ps: Params, enc: string -> string): string {
    Join(Pieces(ps, enc), "&")
  }

  /** `buildGoogleCalendarUrl(ev)`: the base, `&` and the serialized query. */
  function GoogleCalendarUrl(ev: CalendarEvent, enc: string -> string): (url: string)
    ensures |CalendarBase| < |url| && url[..|CalendarBase| + 1] == CalendarBase + "&"
  {
    CalendarBase + "&" + Serialize(GoogleParams(ev), enc)
  }

  lemma {:induction false} PiecesFree(ps: Params, enc: string -> string)
    requires forall s :: '&' !in enc(s)
    ensures forall k :: 0 <= k < |Pieces(ps, enc)| ==> '&' !in Pieces(ps, enc)[k]
  {
    if ps != [] {
      PiecesFree(ps[1..], enc);
      var p := enc(ps[0].0) + "=" + enc(ps[0].1);
      assert '&' !in p;
    }
  }

  /** The query splits back at `&` into one `name=value` piece per pair, whenever
      the encoding never yields a bare `&` (the percent-encoding writes it `%26`). */
  lemma GoogleUrlQuery(ev: CalendarEvent, enc: string -> string)
    requires forall s :: '&' !in enc(s)
    ensures var url := GoogleCalendarUrl(ev, enc);
      Split(url[|CalendarBase| + 1..], '&') == Pieces(GoogleParams(ev), enc)
  {
    var ps := GoogleParams(ev);
    GoogleParamsList(ev);
    PiecesFree(ps, enc);
    SplitJoin(Pieces(ps, enc), '&');
    var url := GoogleCalendarUrl(ev, enc);
    assert url[|CalendarBase| + 1..] == Serialize(ps, enc);
  }
}
