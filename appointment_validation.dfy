/** `validateAppointmentForm`: the checks of the appointment form, the `setError`
    closure that writes each field's error state into the page, and the two
    patterns used for the e-mail address and the phone number. */
module AppointmentValidation {
  import opened JsText

  /** The ids of the checked fields, in the order the checks run. */
  datatype FieldId = FullName | Email | Phone | Service | PreferredDate | PreferredTime | Message | AcceptTerms

  const AllFields: set<FieldId> := {FullName, Email, Phone, Service, PreferredDate, PreferredTime, Message, AcceptTerms}

  /** The values the function reads from the form; `website` is the optional hidden
      honeypot input (`form.website?.value`). */
  datatype AppointmentForm = AppointmentForm(
    fullName: string, email: string, phone: string, service: string,
    preferredDate: string, preferredTime: string, message: string,
    acceptTerms: bool, website: Option<string>)

  // ---- the patterns ----

  /** A character of `[^\s@]`; `\s` is the same set of characters `trim` removes. */
  predicate EmailChar(c: char) {
    !IsSpace(c) && c != '@'
  }

  /** One or more characters of `[^\s@]`. */
  predicate EmailRun(s: string) {
    |s| > 0 && forall k :: 0 <= k < |s| ==> EmailChar(s[k])
  }

  /** `/^[^\s@]+@[^\s@]+\.[^\s@]+$/.test(e)`: `e` splits as `a@b.c` into three
      non-empty runs with no white space and no `@`. */
  predicate MatchesEmail(e: string) {
    exists i, j :: 0 <= i < j < |e| && e[i] == '@' && e[j] == '.'
      && EmailRun(e[..i]) && EmailRun(e[i + 1..j]) && EmailRun(e[j + 1..])
  }

  /** A character of `[0-9+\s-]`. */
  predicate PhoneChar(c: char) {
    IsDigit(c) || c == '+' || IsSpace(c) || c == '-'
  }

  /** `/^[0-9+\s-]{8,15}$/.test(p)`. */
  predicate MatchesPhone(p: string) {
    8 <= |p| <= 15 && forall k :: 0 <= k < |p| ==> PhoneChar(p[k])
  }

  predicate NoSpace(s: string) {
    forall k :: 0 <= k < |s| ==> !IsSpace(s[k])
  }

  /** The address the e-mail pattern accepts, told another way: no white space,
      exactly one `@`, not in first place, and a `.` in the domain with at least
      one character on each side of it. */
  predicate EmailShaped(e: string) {
    && NoSpace(e)
    && exists i :: (0 < i < |e| && e[i] == '@'
      && (forall k :: 0 <= k < |e| && e[k] == '@' ==> k == i)
      && (exists j :: i + 1 < j < |e| - 1 && e[j] == '.'))
  }

  lemma EmailShapedOfMatch(e: string, i: int, j: int)
    requires 0 <= i < j < |e| && e[i] == '@' && e[j] == '.'
    requires EmailRun(e[..i]) && EmailRun(e[i + 1..j]) && EmailRun(e[j + 1..])
    ensures EmailShaped(e)
  {
    forall k | 0 <= k < |e| ensures !IsSpace(e[k]) && (e[k] == '@' ==> k == i) {
      if k < i {
        assert e[..i][k] == e[k];
      } else if i < k < j {
        assert e[i + 1..j][k - i - 1] == e[k];
      } else if j < k {
        assert e[j + 1..][k - j - 1] == e[k];
      }
    }
  }

  lemma MatchOfEmailShaped(e: string, i: int, j: int)
    requires NoSpace(e) && 0 < i < |e| && e[i] == '@'
    requires forall k :: 0 <= k < |e| && e[k] == '@' ==> k == i
    requires i + 1 < j < |e| - 1 && e[j] == '.'
    ensures MatchesEmail(e)
  {
    var a, b, c := e[..i], e[i + 1..j], e[j + 1..];
    forall k | 0 <= k < |a| ensures EmailChar(a[k]) {
      assert a[k] == e[k];
    }
    forall k | 0 <= k < |b| ensures EmailChar(b[k]) {
      assert b[k] == e[i + 1 + k];
    }
    forall k | 0 <= k < |c| ensures EmailChar(c[k]) {
      assert c[k] == e[j + 1 + k];
    }
    assert EmailRun(a) && EmailRun(b) && EmailRun(c);
  }

  /** Both directions: the pattern accepts exactly the addresses shaped as above. */
  lemma EmailPatternMeaning(e: string)
    ensures MatchesEmail(e) <==> EmailShaped(e)
  {
    if MatchesEmail(e) {
      var i, j :| 0 <= i < j < |e| && e[i] == '@' && e[j] == '.'
        && EmailRun(e[..i]) && EmailRun(e[i + 1..j]) && EmailRun(e[j + 1..]);
      EmailShapedOfMatch(e, i, j);
    }
    if EmailShaped(e) {
      var i :| 0 < i < |e| && e[i] == '@' && (forall k :: 0 <= k < |e| && e[k] == '@' ==> k == i)
        && (exists j :: i + 1 < j < |e| - 1 && e[j] == '.');
      var j :| i + 1 < j < |e| - 1 && e[j] == '.';
      MatchOfEmailShaped(e, i, j);
    }
  }

  lemma EmailAccepted(e: string)
    requires e == "a@b.co"
    ensures MatchesEmail(e)
  {
    assert e[1] == '@' && e[3] == '.';
    assert e[..1] == "a" && e[2..3] == "b" && e[4..] == "co";
    assert EmailRun(e[..1]) && EmailRun(e[2..3]) && EmailRun(e[4..]);
  }

  /** `a@b` has no dot, `a.com` no `@`, and the empty string neither. */
  lemma EmailRejected(e: string)
    requires e == "a@b" || e == "a.com" || e == ""
    ensures !MatchesEmail(e)
  {
    if e == "a@b" {
      assert forall j :: 0 <= j < |e| ==> e[j] != '.';
    } else if e == "a.com" {
      assert forall i :: 0 <= i < |e| ==> e[i] != '@';
    }
  }

  lemma PhoneAccepted(p: string)
    requires p == "+1 234-5678"
    ensures MatchesPhone(p)
  {
  }

  /** Too short, or letters. */
  lemma PhoneRejected(p: string)
    requires p == "123" || p == "abcdefg1234"
    ensures !MatchesPhone(p)
  {
    if p == "abcdefg1234" {
      assert !PhoneChar(p[0]);
    }
  }

  // ---- the checks ----

  /** The message `setError` receives for each field: the error text when the check
      fails, the empty string when it passes. */
  function FieldMessage(form: AppointmentForm, id: FieldId): string {
    match id
    case FullName => if Trim(form.fullName) == "" then "Please enter your full name." else ""
    case Email =>
      var e := Trim(form.email);
      if e == "" || !MatchesEmail(e) then "Please enter a valid email address." else ""
    case Phone =>
      var p := Trim(form.phone);
      if p == "" || !MatchesPhone(p) then "Please enter a valid phone number." else ""
    case Service => if form.service == "" then "Please select a service." else ""
    case PreferredDate => if form.preferredDate == "" then "Please select a preferred date." else ""
    case PreferredTime => if form.preferredTime == "" then "Please select a preferred time." else ""
    case Message => if Trim(form.message) == "" then "Please describe your concern." else ""
    case AcceptTerms => if !form.acceptTerms then "Please accept the privacy policy to continue." else ""
  }

  /** The honeypot holds something other than white space. */
  predicate IsSpam(form: AppointmentForm) {
    form.website.Some? && Trim(form.website.value) != ""
  }

  /** What `validateAppointmentForm` returns when the fields in `slots` are the ones
      whose input and error element are both on the page: a failed check only
      counts where `setError` found its elements. */
  predicate Accepted(form: AppointmentForm, slots: set<FieldId>) {
    (forall id :: id in slots ==> FieldMessage(form, id) == "") && !IsSpam(form)
  }

  /** The conditions of the form spelled out field by field. */
  predicate Acceptable(form: AppointmentForm) {
    && Trim(form.fullName) != ""
    && MatchesEmail(Trim(form.email))
    && MatchesPhone(Trim(form.phone))
    && form.service != "" && form.preferredDate != "" && form.preferredTime != ""
    && Trim(form.message) != ""
    && form.acceptTerms
    && !IsSpam(form)
  }

  lemma EmptyEmailFails()
    ensures !MatchesEmail("")
  {
  }

  /** With every field and error element on the page, the form is accepted exactly
      when the name and message are non-blank, the e-mail address and the phone
      number match their patterns, service, date and time are chosen, the terms are
      accepted and the honeypot is blank. */
  lemma AcceptedMeaning(form: AppointmentForm)
    ensures Accepted(form, AllFields) <==> Acceptable(form)
  {
    EmptyEmailFails();
    if Acceptable(form) {
      forall id | id in AllFields ensures FieldMessage(form, id) == "" {
      }
    }
    if Accepted(form, AllFields) {
      assert FieldMessage(form, FullName) == "" && FieldMessage(form, Email) == "";
      assert FieldMessage(form, Phone) == "" && FieldMessage(form, Service) == "";
      assert FieldMessage(form, PreferredDate) == "" && FieldMessage(form, PreferredTime) == "";
      assert FieldMessage(form, Message) == "" && FieldMessage(form, AcceptTerms) == "";
    }
  }

  /** A filled honeypot always rejects, and it changes no field message. */
  lemma HoneypotRejects(form: AppointmentForm, slots: set<FieldId>, w: string, id: FieldId)
    requires Trim(w) != ""
    ensures !Accepted(form.(website := Some(w)), slots)
    ensures FieldMessage(form.(website := Some(w)), id) == FieldMessage(form, id)
  {
  }

  /** The caveat of `setError`: a check on a field whose elements are missing does
      not make the form fail, so with none of them on the page only the honeypot
      decides. */
  lemma MissingSlotsAccept(form: AppointmentForm)
    ensures Accepted(form, {}) <==> !IsSpam(form)
  {
  }

  /** The error text after `setError(id, msg)`: written where the element exists. */
  function ShowError(texts: map<FieldId, string>, id: FieldId, msg: string): map<FieldId, string> {
    if id in texts then texts[id := msg] else texts
  }

  /** The marked inputs after `setError(id, msg)`. */
  function MarkError(marked: set<FieldId>, slots: set<FieldId>, id: FieldId, msg: string): set<FieldId> {
    if id !in slots then marked else if msg != "" then marked + {id} else marked - {id}
  }

  /** `setError` touches only the element it names. */
  lemma ShowErrorAt(texts: map<FieldId, string>, id: FieldId, msg: string, x: FieldId)
    ensures x in ShowError(texts, id, msg) <==> x in texts
    ensures x in texts ==> ShowError(texts, id, msg)[x] == if x == id then msg else texts[x]
  {
  }

  lemma MarkErrorAt(marked: set<FieldId>, slots: set<FieldId>, id: FieldId, msg: string, x: FieldId)
    ensures x in MarkError(marked, slots, id, msg) <==>
      if x == id && id in slots then msg != "" else x in marked
  {
  }

  /** The error texts after the eight `setError` calls. */
  function ShowAll(texts: map<FieldId, string>, form: AppointmentForm): map<FieldId, string> {
    var t1 := ShowError(texts, FullName, FieldMessage(form, FullName));
    var t2 := ShowError(t1, Email, FieldMessage(form, Email));
    var t3 := ShowError(t2, Phone, FieldMessage(form, Phone));
    var t4 := ShowError(t3, Service, FieldMessage(form, Service));
    var t5 := ShowError(t4, PreferredDate, FieldMessage(form, PreferredDate));
    var t6 := ShowError(t5, PreferredTime, FieldMessage(form, PreferredTime));
    var t7 := ShowError(t6, Message, FieldMessage(form, Message));
    ShowError(t7, AcceptTerms, FieldMessage(form, AcceptTerms))
  }

  /** The marked inputs after the eight `setError` calls. */
  function MarkAll(marked: set<FieldId>, slots: set<FieldId>, form: AppointmentForm): set<FieldId> {
    var k1 := MarkError(marked, slots, FullName, FieldMessage(form, FullName));
    var k2 := MarkError(k1, slots, Email, FieldMessage(form, Email));
    var k3 := MarkError(k2, slots, Phone, FieldMessage(form, Phone));
    var k4 := MarkError(k3, slots, Service, FieldMessage(form, Service));
    var k5 := MarkError(k4, slots, PreferredDate, FieldMessage(form, PreferredDate));
    var k6 := MarkError(k5, slots, PreferredTime, FieldMessage(form, PreferredTime));
    var k7 := MarkError(k6, slots, Message, FieldMessage(form, Message));
    MarkError(k7, slots, AcceptTerms, FieldMessage(form, AcceptTerms))
  }

  /** The texts after the checks: each existing element shows its field's message. */
  lemma ShowAllSpec(texts: map<FieldId, string>, form: AppointmentForm)
    ensures ShowAll(texts, form) == map x | x in texts :: FieldMessage(form, x)
  {
    var t1 := ShowError(texts, FullName, FieldMessage(form, FullName));
    var t2 := ShowError(t1, Email, FieldMessage(form, Email));
    var t3 := ShowError(t2, Phone, FieldMessage(form, Phone));
    var t4 := ShowError(t3, Service, FieldMessage(form, Service));
    var t5 := ShowError(t4, PreferredDate, FieldMessage(form, PreferredDate));
    var t6 := ShowError(t5, PreferredTime, FieldMessage(form, PreferredTime));
    var t7 := ShowError(t6, Message, FieldMessage(form, Message));
    var t8 := ShowError(t7, AcceptTerms, FieldMessage(form, AcceptTerms));
    forall x
      ensures x in t8 <==> x in texts
      ensures x in texts ==> t8[x] == FieldMessage(form, x)
    {
      ShowErrorAt(texts, FullName, FieldMessage(form, FullName), x);
      ShowErrorAt(t1, Email, FieldMessage(form, Email), x);
      ShowErrorAt(t2, Phone, FieldMessage(form, Phone), x);
      ShowErrorAt(t3, Service, FieldMessage(form, Service), x);
      ShowErrorAt(t4, PreferredDate, FieldMessage(form, PreferredDate), x);
      ShowErrorAt(t5, PreferredTime, FieldMessage(form, PreferredTime), x);
      ShowErrorAt(t6, Message, FieldMessage(form, Message), x);
      ShowErrorAt(t7, AcceptTerms, FieldMessage(form, AcceptTerms), x);
    }
  }

  /** The marks after the checks: exactly the failing fields that have elements. */
  lemma MarkAllSpec(marked: set<FieldId>, slots: set<FieldId>, form: AppointmentForm)
    requires marked <= slots
    ensures MarkAll(marked, slots, form) == set x | x in slots && FieldMessage(form, x) != ""
  {
    var k1 := MarkError(marked, slots, FullName, FieldMessage(form, FullName));
    var k2 := MarkError(k1, slots, Email, FieldMessage(form, Email));
    var k3 := MarkError(k2, slots, Phone, FieldMessage(form, Phone));
    var k4 := MarkError(k3, slots, Service, FieldMessage(form, Service));
    var k5 := MarkError(k4, slots, PreferredDate, FieldMessage(form, PreferredDate));
    var k6 := MarkError(k5, slots, PreferredTime, FieldMessage(form, PreferredTime));
    var k7 := MarkError(k6, slots, Message, FieldMessage(form, Message));
    var k8 := MarkError(k7, slots, AcceptTerms, FieldMessage(form, AcceptTerms));
    forall x
      ensures x in k8 <==> x in slots && FieldMessage(form, x) != ""
    {
      MarkErrorAt(marked, slots, FullName, FieldMessage(form, FullName), x);
      MarkErrorAt(k1, slots, Email, FieldMessage(form, Email), x);
      MarkErrorAt(k2, slots, Phone, FieldMessage(form, Phone), x);
      MarkErrorAt(k3, slots, Service, FieldMessage(form, Service), x);
      MarkErrorAt(k4, slots, PreferredDate, FieldMessage(form, PreferredDate), x);
      MarkErrorAt(k5, slots, PreferredTime, FieldMessage(form, PreferredTime), x);
      MarkErrorAt(k6, slots, Message, FieldMessage(form, Message), x);
      MarkErrorAt(k7, slots, AcceptTerms, FieldMessage(form, AcceptTerms), x);
    }
  }

  /** `Accepted` check by check, in the order of the script. */
  lemma AcceptedChecks(form: AppointmentForm, slots: set<FieldId>)
    ensures Accepted(form, slots) <==>
      && (FullName !in slots || FieldMessage(form, FullName) == "")
      && (Email !in slots || FieldMessage(form, Email) == "")
      && (Phone !in slots || FieldMessage(form, Phone) == "")
      && (Service !in slots || FieldMessage(form, Service) == "")
      && (PreferredDate !in slots || FieldMessage(form, PreferredDate) == "")
      && (PreferredTime !in slots || FieldMessage(form, PreferredTime) == "")
      && (Message !in slots || FieldMessage(form, Message) == "")
      && (AcceptTerms !in slots || FieldMessage(form, AcceptTerms) == "")
      && !IsSpam(form)
  {
  }

  /** The error elements of the form as the page shows them. */
  class ErrorDisplay {
    /** The fields whose input (`#id`) and error element (`[data-error-for=id]`)
        are both in the form. */
    const slots: set<FieldId>
    /** `textContent` of each error element. */
    var errorText: map<FieldId, string>
    /** The inputs carrying the `error` class. */
    var marked: set<FieldId>

    ghost predicate Valid()
      reads this
    {
      errorText.Keys == slots && marked <= slots
    }

    constructor (slots: set<FieldId>)
      ensures Valid() && this.slots == slots
      ensures errorText == (map id | id in slots :: "") && marked == {}
    {
      this.slots := slots;
      errorText := map id | id in slots :: "";
      marked := {};
    }

    /** `setError(id, msg)`: nothing when an element is missing; otherwise the field
        is marked and the text written for a non-empty message (which also clears
        `isValid`), and unmarked and cleared for an empty one. */
    method SetError(id: FieldId, msg: string, isValid: bool) returns (stillValid: bool)
      requires Valid()
      modifies this
      ensures Valid()
      ensures errorText == ShowError(old(errorText), id, msg)
      ensures marked == MarkError(old(marked), slots, id, msg)
      ensures stillValid == (isValid && (id !in slots || msg == ""))
    {
      stillValid := isValid;
      if id !in slots {
        return;
      }
      if msg != "" {
        marked := marked + {id};
        errorText := errorText[id := msg];
        stillValid := false;
      } else {
        marked := marked - {id};
        errorText := errorText[id := ""];
      }
    }

    /** `validateAppointmentForm(form)`: the eight checks in order, then the
        honeypot. Afterwards every error element shows its field's message, exactly
        the failing fields are marked, and the result is `Accepted`. */
    method Validate(form: AppointmentForm) returns (valid: bool)
      requires Valid()
      modifies this
      ensures Valid()
      ensures errorText == map id | id in slots :: FieldMessage(form, id)
      ensures marked == set id | id in slots && FieldMessage(form, id) != ""
      ensures valid == Accepted(form, slots)
    {
      ghost var t0, k0 := errorText, marked;
      valid := true;
      valid := SetError(FullName, FieldMessage(form, FullName), valid);
      valid := SetError(Email, FieldMessage(form, Email), valid);
      valid := SetError(Phone, FieldMessage(form, Phone), valid);
      valid := SetError(Service, FieldMessage(form, Service), valid);
      valid := SetError(PreferredDate, FieldMessage(form, PreferredDate), valid);
      valid := SetError(PreferredTime, FieldMessage(form, PreferredTime), valid);
      valid := SetError(Message, FieldMessage(form, Message), valid);
      valid := SetError(AcceptTerms, FieldMessage(form, AcceptTerms), valid);
      if IsSpam(form) {
        valid := false;
      }
      assert errorText == ShowAll(t0, form);
      assert marked == MarkAll(k0, slots, form);
      ShowAllSpec(t0, form);
      MarkAllSpec(k0, slots, form);
      AcceptedChecks(form, slots);
    }
  }
}
