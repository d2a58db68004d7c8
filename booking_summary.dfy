/** The booking summary shown in the success overlay after a form is sent
    (`handleFormSubmit` and its `simulateSuccess`): one list item `label: value`
    for each summary field whose submitted value is non-empty, in the order of the
    field list. */
module BookingSummary {
  import opened JsText

  /** `Object.fromEntries(new FormData(form).entries())`: field name to value. */
  type FormData = map<string, string>

  /** `data[key]` is truthy: the field was submitted and its value is not empty. */
  predicate Filled(data: FormData, key: string) {
    key in data && data[key] != ""
  }

  /** The script's chain of seven first-occurrence replacements, in order. */
  const LabelRules: seq<(string, string)> := [
    ("preferredDate", "Preferred date"),
    ("preferredTime", "Preferred time"),
    ("service", "Service"),
    ("phone", "Phone"),
    ("name", "Name"),
    ("email", "Email"),
    ("message", "Message")]

  /** The chain from rule `i` on. */
  function Relabel(s: string, i: nat): string
    requires i <= |LabelRules|
    decreases |LabelRules| - i
  {
    if i == |LabelRules| then s else Relabel(ReplaceFirst(s, LabelRules[i].0, LabelRules[i].1), i + 1)
  }

  /** The label of a field: `key.replace(...)` seven times. */
  function Label(key: string): string {
    Relabel(key, 0)
  }

  /** The text of one list item. */
  function Line(key: string, data: FormData): string
    requires key in data
  {
    Label(key) + ": " + data[key]
  }

  /** The item (at most one) a field contributes. */
  function Item(key: string, data: FormData): (r: seq<string>)
    ensures |r| == if Filled(data, key) then 1 else 0
  {
    if Filled(data, key) then [Line(key, data)] else []
  }

  /** The items of the summary list, field by field. */
  function SummaryLines(fields: seq<string>, data: FormData): seq<string> {
    if fields == [] then [] else Item(fields[0], data) + SummaryLines(fields[1..], data)
  }

  /** The `forEach` over the summary fields, building the list's items. */
  method SummaryItems(fields: seq<string>, data: FormData) returns (items: seq<string>)
    ensures items == SummaryLines(fields, data)
  {
    items := [];
    var i := 0;
    while i < |fields|
      invariant 0 <= i <= |fields|
      invariant SummaryLines(fields, data) == items + SummaryLines(fields[i..], data)
    {
      var before := items;
      if Filled(data, fields[i]) {
        items := items + [Line(fields[i], data)];
      }
      SummaryStep(fields, i, data);
      ConcatAssoc(before, Item(fields[i], data), SummaryLines(fields[i + 1..], data));
      i := i + 1;
    }
    assert fields[i..] == [];
  }

  lemma SummaryStep(fields: seq<string>, i: nat, data: FormData)
    requires i < |fields|
    ensures SummaryLines(fields[i..], data) == Item(fields[i], data) + SummaryLines(fields[i + 1..], data)
  {
    assert fields[i..][1..] == fields[i + 1..];
  }

  lemma ConcatAssoc(a: seq<string>, b: seq<string>, c: seq<string>)
    ensures a + (b + c) == (a + b) + c
  {
  }

  // ---- what the list says ----

  /** The reference: the fields with a non-empty value, in their order. */
  function FilledKeys(fields: seq<string>, data: FormData): (r: seq<string>)
    ensures forall k :: 0 <= k < |r| ==> Filled(data, r[k])
  {
    if fields == [] then []
    else (if Filled(data, fields[0]) then [fields[0]] else []) + FilledKeys(fields[1..], data)
  }

  /** One line per key, in order. */
  function LinesOf(keys: seq<string>, data: FormData): (r: seq<string>)
    requires forall k :: 0 <= k < |keys| ==> keys[k] in data
    ensures |r| == |keys| && forall k :: 0 <= k < |keys| ==> r[k] == Line(keys[k], data)
  {
    seq(|keys|, k requires 0 <= k < |keys| => Line(keys[k], data))
  }

  /** The summary is exactly the lines of the filled fields, in field order. */
  lemma {:induction false} SummaryLinesAreFilled(fields: seq<string>, data: FormData)
    ensures SummaryLines(fields, data) == LinesOf(FilledKeys(fields, data), data)
  {
    if fields != [] {
      SummaryLinesAreFilled(fields[1..], data);
      var rest := FilledKeys(fields[1..], data);
      if Filled(data, fields[0]) {
        assert FilledKeys(fields, data) == [fields[0]] + rest;
        LinesOfCons(fields[0], rest, data);
      } else {
        assert FilledKeys(fields, data) == rest;
      }
    }
  }

  lemma LinesOfCons(key: string, keys: seq<string>, data: FormData)
    requires key in data && forall k :: 0 <= k < |keys| ==> keys[k] in data
    ensures LinesOf([key] + keys, data) == [Line(key, data)] + LinesOf(keys, data)
  {
    var l, r := LinesOf([key] + keys, data), [Line(key, data)] + LinesOf(keys, data);
    assert |l| == |r|;
    forall k | 0 <= k < |l| ensures l[k] == r[k] {
      if k > 0 {
        assert ([key] + keys)[k] == keys[k - 1];
      }
    }
  }

  /** A field is in the summary exactly when it is listed and was submitted non-empty. */
  lemma {:induction false} FilledKeysMember(fields: seq<string>, data: FormData, key: string)
    ensures key in FilledKeys(fields, data) <==> key in fields && Filled(data, key)
  {
    if fields != [] {
      FilledKeysMember(fields[1..], data, key);
      assert key in fields <==> key == fields[0] || key in fields[1..] by {
        assert fields == [fields[0]] + fields[1..];
      }
    }
  }

  /** Every listed field contributes at most one line; the summary has one line per
      filled field. */
  lemma {:induction false} SummaryLength(fields: seq<string>, data: FormData)
    ensures |SummaryLines(fields, data)| == |FilledKeys(fields, data)| <= |fields|
  {
    if fields != [] {
      SummaryLength(fields[1..], data);
    }
  }

  /** With every field filled, the summary has one line per field, in field order. */
  lemma AllFilledSummary(fields: seq<string>, data: FormData)
    requires forall k :: 0 <= k < |fields| ==> fields[k] in data && data[fields[k]] != ""
    ensures SummaryLines(fields, data) == LinesOf(fields, data)
  {
    AllFilledKeys(fields, data);
    SummaryLinesAreFilled(fields, data);
  }

  lemma {:induction false} AllFilledKeys(fields: seq<string>, data: FormData)
    requires forall k :: 0 <= k < |fields| ==> fields[k] in data && data[fields[k]] != ""
    ensures FilledKeys(fields, data) == fields
  {
    if fields != [] {
      AllFilledKeys(fields[1..], data);
      assert fields == [fields[0]] + fields[1..];
    }
  }

  // ---- the labels ----

  /** For each rule `j` from `i` up to `stop`, character `ks[j]` of its pattern does
      not occur in `s`, so that rule leaves `s` as it is. */
  predicate Misses(s: string, i: nat, stop: nat, ks: seq<nat>)
    requires |ks| == |LabelRules| && i <= stop <= |LabelRules|
    decreases stop - i
  {
    i == stop || (ks[i] < |LabelRules[i].0| && LabelRules[i].0[ks[i]] !in s && Misses(s, i + 1, stop, ks))
  }

  /** Rules whose patterns do not occur in `s` are passed over. */
  lemma {:induction false} RelabelSkip(s: string, i: nat, stop: nat, ks: seq<nat>)
    requires |ks| == |LabelRules| && i <= stop <= |LabelRules|
    requires Misses(s, i, stop, ks)
    ensures Relabel(s, i) == Relabel(s, stop)
    decreases stop - i
  {
    if i < stop {
      ReplaceFirstMissing(s, LabelRules[i].0, LabelRules[i].1, ks[i]);
      RelabelSkip(s, i + 1, stop, ks);
    }
  }

  /** A key that is exactly rule `m`'s pattern gets rule `m`'s label, provided no
      earlier pattern occurs in the key and no later one in the label. */
  lemma LabelOfRule(m: nat, key: string, shown: string, keyMisses: seq<nat>, shownMisses: seq<nat>)
    requires m < |LabelRules| && LabelRules[m] == (key, shown)
    requires |keyMisses| == |LabelRules| && |shownMisses| == |LabelRules|
    requires Misses(key, 0, m, keyMisses)
    requires Misses(shown, m + 1, |LabelRules|, shownMisses)
    ensures Label(key) == shown
  {
    RelabelSkip(key, 0, m, keyMisses);
    assert Relabel(key, 0) == Relabel(key, m);
    ReplaceFirstAtStart(key, key, shown);
    assert key[|key|..] == [];
    assert ReplaceFirst(key, key, shown) == shown;
    assert Relabel(key, m) == Relabel(shown, m + 1);
    RelabelSkip(shown, m + 1, |LabelRules|, shownMisses);
    assert Relabel(shown, |LabelRules|) == shown;
  }

  /** `preferredDate` is labelled `Preferred date`. */
  lemma LabelPreferredDate(key: string)
    requires key == "preferredDate"
    ensures Label(key) == "Preferred date"
  {
    assert Misses("Preferred date", 1, 7, [0, 0, 0, 0, 0, 1, 0]);
    LabelOfRule(0, "preferredDate", "Preferred date", [0, 0, 0, 0, 0, 0, 0], [0, 0, 0, 0, 0, 1, 0]);
  }

  /** `preferredTime` is labelled `Preferred time`. */
  lemma LabelPreferredTime(key: string)
    requires key == "preferredTime"
    ensures Label(key) == "Preferred time"
  {
    assert Misses("preferredTime", 0, 1, [9, 0, 0, 0, 0, 0, 0]);
    assert Misses("Preferred time", 2, 7, [0, 0, 0, 0, 0, 2, 2]);
    LabelOfRule(1, "preferredTime", "Preferred time", [9, 0, 0, 0, 0, 0, 0], [0, 0, 0, 0, 0, 2, 2]);
  }

  /** `service` is labelled `Service`. */
  lemma LabelService(key: string)
    requires key == "service"
    ensures Label(key) == "Service"
  {
    assert Misses("service", 0, 2, [0, 0, 0, 0, 0, 0, 0]);
    assert Misses("Service", 3, 7, [0, 0, 0, 0, 0, 1, 0]);
    LabelOfRule(2, "service", "Service", [0, 0, 0, 0, 0, 0, 0], [0, 0, 0, 0, 0, 1, 0]);
  }

  /** `phone` is labelled `Phone`. */
  lemma LabelPhone(key: string)
    requires key == "phone"
    ensures Label(key) == "Phone"
  {
    assert Misses("phone", 0, 3, [1, 1, 0, 0, 0, 0, 0]);
    assert Misses("Phone", 4, 7, [0, 0, 0, 0, 1, 1, 0]);
    LabelOfRule(3, "phone", "Phone", [1, 1, 0, 0, 0, 0, 0], [0, 0, 0, 0, 1, 1, 0]);
  }

  /** `name` is labelled `Name`. */
  lemma LabelName(key: string)
    requires key == "name"
    ensures Label(key) == "Name"
  {
    assert Misses("name", 0, 4, [0, 0, 0, 0, 0, 0, 0]);
    assert Misses("Name", 5, 7, [0, 0, 0, 0, 0, 3, 2]);
    LabelOfRule(4, "name", "Name", [0, 0, 0, 0, 0, 0, 0], [0, 0, 0, 0, 0, 3, 2]);
  }

  /** `email` is labelled `Email`. */
  lemma LabelEmail(key: string)
    requires key == "email"
    ensures Label(key) == "Email"
  {
    assert Misses("email", 0, 5, [0, 0, 0, 0, 0, 0, 0]);
    assert Misses("Email", 6, 7, [0, 0, 0, 0, 0, 0, 1]);
    LabelOfRule(5, "email", "Email", [0, 0, 0, 0, 0, 0, 0], [0, 0, 0, 0, 0, 0, 1]);
  }

  /** `message` is labelled `Message`. */
  lemma LabelMessage(key: string)
    requires key == "message"
    ensures Label(key) == "Message"
  {
    assert Misses("message", 0, 6, [0, 0, 2, 0, 0, 3, 0]);
    LabelOfRule(6, "message", "Message", [0, 0, 2, 0, 0, 3, 0], [0, 0, 0, 0, 0, 0, 0]);
  }

  /** `fullName` holds no lower-case `name`, so its label is the key itself. */
  lemma LabelFullName(key: string)
    requires key == "fullName"
    ensures Label(key) == "fullName"
  {
    assert Misses("fullName", 0, 7, [0, 0, 0, 0, 0, 3, 2]);
    RelabelSkip(key, 0, |LabelRules|, [0, 0, 0, 0, 0, 3, 2]);
  }

  // ---- the overlay ----

  /** The success overlay: whether it is open, and the lists inside the summary
      element `#bookingSummary`, each given by its items' texts. */
  class SuccessOverlay {
    var open: bool
    var summary: seq<seq<string>>

    constructor()
      ensures !open && summary == []
    {
      open := false;
      summary := [];
    }

    /** `overlaySummary.innerHTML = ''`. */
    method ClearSummary()
      modifies this
      ensures summary == [] && open == old(open)
    {
      summary := [];
    }

    /** `simulateSuccess`: with a non-empty field list a new list of the filled
        fields is appended; the overlay is opened in every case. */
    method SimulateSuccess(fields: seq<string>, data: FormData)
      modifies this
      ensures summary == old(summary) + (if |fields| > 0 then [SummaryLines(fields, data)] else [])
      ensures open
    {
      if |fields| > 0 {
        var list := SummaryItems(fields, data);
        summary := summary + [list];
      }
      open := true;
    }

    /** One submission: the summary is cleared, then on success (`sent`, the result
        of the request, always true in demo mode) filled and the overlay opened; on
        failure it stays empty and the overlay as it was. */
    method Submit(fields: seq<string>, data: FormData, sent: bool)
      modifies this
      ensures summary == if sent && |fields| > 0 then [SummaryLines(fields, data)] else []
      ensures open == (old(open) || sent)
    {
      ClearSummary();
      if sent {
        SimulateSuccess(fields, data);
      }
    }
  }
}
