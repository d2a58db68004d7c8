/** The pieces of the ECMAScript string library that the page scripts lean on:
    white space as `trim`, `parseInt` and the regex class `\s` see it, global and
    first-match replacement, `split`, `join`, integer-to-text and `padStart`.
    JavaScript strings are modelled as sequences of characters.

    The functions carry only the bounds their callers need; what they compute is
    stated by the lemma beside each one, so that a proof about a caller only pays
    for the facts it asks for. */
module JsText {

  datatype Option<T> = None | Some(value: T)

  /** WhiteSpace and LineTerminator code points of ECMAScript: the set that `trim`
      removes, `parseInt` skips and the regular-expression class `\s` matches. */
  predicate IsSpace(c: char) {
    c == '\t' || c == '\n' || c == '\U{000B}' || c == '\U{000C}' || c == '\r' || c == ' '
    || c == '\U{00A0}' || c == '\U{1680}' || ('\U{2000}' <= c <= '\U{200A}')
    || c == '\U{2028}' || c == '\U{2029}' || c == '\U{202F}' || c == '\U{205F}'
    || c == '\U{3000}' || c == '\U{FEFF}'
  }

  predicate AllSpace(s: string) {
    forall k :: 0 <= k < |s| ==> IsSpace(s[k])
  }

  /** The number of white-space characters at the start of `s`. */
  function LeadingSpace(s: string): (n: nat)
    ensures n <= |s|
  {
    if s != [] && IsSpace(s[0]) then LeadingSpace(s[1..]) + 1 else 0
  }

  /** The number of white-space characters at the end of `s`. */
  function TrailingSpace(s: string): (n: nat)
    ensures n <= |s|
  {
    if s != [] && IsSpace(s[|s| - 1]) then TrailingSpace(s[..|s| - 1]) + 1 else 0
  }

  /** `LeadingSpace` counts a white-space run that the next character (if any) ends. */
  lemma {:induction false} LeadingSpaceSpec(s: string)
    ensures AllSpace(s[..LeadingSpace(s)])
    ensures LeadingSpace(s) < |s| ==> !IsSpace(s[LeadingSpace(s)])
  {
    if s != [] && IsSpace(s[0]) {
      LeadingSpaceSpec(s[1..]);
      var n := LeadingSpace(s[1..]);
      assert s[..n + 1] == [s[0]] + s[1..][..n];
    }
  }

  /** `TrailingSpace` counts a white-space run that the previous character ends. */
  lemma {:induction false} TrailingSpaceSpec(s: string)
    ensures AllSpace(s[|s| - TrailingSpace(s)..])
    ensures TrailingSpace(s) < |s| ==> !IsSpace(s[|s| - TrailingSpace(s) - 1])
  {
    if s != [] && IsSpace(s[|s| - 1]) {
      var init := s[..|s| - 1];
      TrailingSpaceSpec(init);
      var n := TrailingSpace(init);
      assert s[|s| - (n + 1)..] == init[|init| - n..] + [s[|s| - 1]];
    }
  }

  /** Drops the leading white space (the first half of `String.prototype.trim`). */
  function TrimStart(s: string): (r: string)
    ensures |r| <= |s|
  {
    s[LeadingSpace(s)..]
  }

  /** Drops the trailing white space. */
  function TrimEnd(s: string): (r: string)
    ensures |r| <= |s|
  {
    s[..|s| - TrailingSpace(s)]
  }

  /** `String.prototype.trim`. */
  function Trim(s: string): (r: string)
    ensures |r| <= |s|
  {
    TrimEnd(TrimStart(s))
  }

  /** `trim` cuts `s` into leading white space, the result and trailing white space;
      the result neither starts nor ends with white space, and it is empty exactly
      when `s` is all white space. */
  lemma TrimSpec(s: string)
    ensures var r := Trim(s);
      exists i: nat, j: nat :: i <= j <= |s| && r == s[i..j] && AllSpace(s[..i]) && AllSpace(s[j..])
    ensures Trim(s) == [] <==> AllSpace(s)
    ensures Trim(s) != [] ==> !IsSpace(Trim(s)[0]) && !IsSpace(Trim(s)[|Trim(s)| - 1])
  {
    var i := LeadingSpace(s);
    var t := s[i..];
    LeadingSpaceSpec(s);
    TrailingSpaceSpec(t);
    var j := i + |t| - TrailingSpace(t);
    var r := Trim(s);
    assert r == t[..|t| - TrailingSpace(t)] == s[i..j];
    assert s[j..] == t[|t| - TrailingSpace(t)..];
    if r == [] {
      assert i == j;
      assert s == s[..i] + s[j..];
      AllSpaceConcat(s[..i], s[j..]);
    } else {
      assert r[0] == s[i];
      assert r[|r| - 1] == t[|t| - TrailingSpace(t) - 1];
    }
  }

  lemma AllSpaceConcat(a: string, b: string)
    requires AllSpace(a) && AllSpace(b)
    ensures AllSpace(a + b)
  {
    forall k | 0 <= k < |a + b| ensures IsSpace((a + b)[k]) {
      if k < |a| { assert (a + b)[k] == a[k]; } else { assert (a + b)[k] == b[k - |a|]; }
    }
  }

  /** Number of occurrences of `c` in `s`. */
  function Count(s: string, c: char): nat {
    if s == [] then 0 else (if s[0] == c then 1 else 0) + Count(s[1..], c)
  }

  /** `s.replace(/c/g, t)` for a one-character pattern and a replacement without `$`
      patterns: every occurrence of `c` becomes `t`, in one left-to-right pass. */
  function ReplaceAll(s: string, c: char, t: string): string {
    if s == [] then [] else (if s[0] == c then t else [s[0]]) + ReplaceAll(s[1..], c, t)
  }

  lemma {:induction false} ReplaceAllConcat(a: string, b: string, c: char, t: string)
    ensures ReplaceAll(a + b, c, t) == ReplaceAll(a, c, t) + ReplaceAll(b, c, t)
  {
    if a != [] {
      assert (a + b)[1..] == a[1..] + b;
      ReplaceAllConcat(a[1..], b, c, t);
    } else {
      assert a + b == b;
    }
  }

  /** A pass that finds nothing to replace changes nothing. */
  lemma {:induction false} ReplaceAllAbsent(s: string, c: char, t: string)
    requires c !in s
    ensures ReplaceAll(s, c, t) == s
  {
    if s != [] {
      assert s == [s[0]] + s[1..];
      ReplaceAllAbsent(s[1..], c, t);
    }
  }

  /** Removing every `c` from `a`, `c`, `b` where only the middle one is a `c`. */
  lemma ReplaceAllSplice(a: string, c: char, b: string)
    requires c !in a && c !in b
    ensures ReplaceAll(a + [c] + b, c, "") == a + b
  {
    ReplaceAllConcat(a + [c], b, c, "");
    ReplaceAllConcat(a, [c], c, "");
    ReplaceAllAbsent(a, c, "");
    ReplaceAllAbsent(b, c, "");
    assert [c][1..] == [];
    assert ReplaceAll([c], c, "") == "";
    assert ReplaceAll(a + [c], c, "") == a;
  }

  /** Removing every `c` (`s.replace(/c/g, '')`) leaves no `c` and shortens `s` by
      the number of occurrences. Read from left to right, each character other than
      `c` is appended in turn and each `c` is dropped, so the others stay in order. */
  lemma {:induction false} RemoveAllSpec(s: string, c: char)
    ensures c !in ReplaceAll(s, c, "")
    ensures |ReplaceAll(s, c, "")| == |s| - Count(s, c)
    ensures forall i :: 0 <= i < |s| ==>
      ReplaceAll(s[..i + 1], c, "") == ReplaceAll(s[..i], c, "") + (if s[i] == c then "" else [s[i]])
  {
    if s != [] {
      RemoveAllSpec(s[1..], c);
    }
    forall i | 0 <= i < |s|
      ensures ReplaceAll(s[..i + 1], c, "") == ReplaceAll(s[..i], c, "") + (if s[i] == c then "" else [s[i]])
    {
      assert s[..i + 1] == s[..i] + [s[i]];
      ReplaceAllConcat(s[..i], [s[i]], c, "");
      assert [s[i]][1..] == [];
    }
  }

  /** `OccursAt(s, pat, i)`: `pat` is found in `s` at index `i`. */
  predicate OccursAt(s: string, pat: string, i: nat) {
    i + |pat| <= |s| && s[i..i + |pat|] == pat
  }

  /** `s.indexOf(pat, from)`: the first index at or after `from` where `pat` occurs. */
  function IndexOfFrom(s: string, pat: string, from: nat): (r: Option<nat>)
    ensures r.Some? ==> from <= r.value && OccursAt(s, pat, r.value)
    decreases |s| - from
  {
    if from + |pat| > |s| then None
    else if s[from..from + |pat|] == pat then Some(from)
    else IndexOfFrom(s, pat, from + 1)
  }

  /** `indexOf` finds the FIRST occurrence, and finds one whenever there is one. */
  lemma {:induction false} IndexOfFromSpec(s: string, pat: string, from: nat)
    ensures var r := IndexOfFrom(s, pat, from);
      r.Some? ==> forall j: nat :: from <= j < r.value ==> !OccursAt(s, pat, j)
    ensures IndexOfFrom(s, pat, from).None? ==> forall j: nat :: from <= j ==> !OccursAt(s, pat, j)
    decreases |s| - from
  {
    if from + |pat| <= |s| && s[from..from + |pat|] != pat {
      IndexOfFromSpec(s, pat, from + 1);
    }
  }

  function IndexOf(s: string, pat: string): (r: Option<nat>)
    ensures r.Some? ==> OccursAt(s, pat, r.value)
  {
    IndexOfFrom(s, pat, 0)
  }

  /** `s.replace(pat, rep)` with a string pattern: only the FIRST occurrence is replaced. */
  function ReplaceFirst(s: string, pat: string, rep: string): string {
    match IndexOf(s, pat)
    case None => s
    case Some(i) => s[..i] + rep + s[i + |pat|..]
  }

  /** The first occurrence of a one-character pattern `c` is just after the prefix
      `a` when `a` holds no `c`. */
  lemma ReplaceFirstChar(a: string, c: char, b: string, rep: string)
    requires c !in a
    ensures ReplaceFirst(a + [c] + b, [c], rep) == a + rep + b
  {
    var s := a + [c] + b;
    assert OccursAt(s, [c], |a|);
    IndexOfFromSpec(s, [c], 0);
    var r := IndexOf(s, [c]);
    forall j: nat | j < |a| ensures !OccursAt(s, [c], j) {
      assert s[j..j + 1][0] == a[j];
    }
    assert r.value == |a|;
    assert s[..|a|] == a && s[|a| + 1..] == b;
  }

  /** A pattern with a character that does not occur in `s` is not found. */
  lemma ReplaceFirstMissing(s: string, pat: string, rep: string, k: nat)
    requires k < |pat| && pat[k] !in s
    ensures ReplaceFirst(s, pat, rep) == s
  {
    var r := IndexOf(s, pat);
    forall i: nat | i + |pat| <= |s| ensures !OccursAt(s, pat, i) {
      assert s[i..i + |pat|][k] == s[i + k];
    }
  }

  /** A pattern found at the very start is replaced there. */
  lemma ReplaceFirstAtStart(s: string, pat: string, rep: string)
    requires |pat| <= |s| && s[..|pat|] == pat
    ensures ReplaceFirst(s, pat, rep) == rep + s[|pat|..]
  {
    assert OccursAt(s, pat, 0);
  }

  /** `Array.prototype.join(sep)` on an array of strings. */
  function Join(parts: seq<string>, sep: string): string {
    if |parts| == 0 then "" else if |parts| == 1 then parts[0] else parts[0] + sep + Join(parts[1..], sep)
  }

  /** Index of the first `c` in `s`. */
  function FirstIndexOf(s: string, c: char): (i: nat)
    requires c in s
    ensures i < |s| && s[i] == c
  {
    if s[0] == c then 0 else 1 + FirstIndexOf(s[1..], c)
  }

  lemma {:induction false} FirstIndexOfSpec(s: string, c: char)
    requires c in s
    ensures c !in s[..FirstIndexOf(s, c)]
  {
    if s[0] != c {
      FirstIndexOfSpec(s[1..], c);
      var j := FirstIndexOf(s[1..], c);
      assert s[..1 + j] == [s[0]] + s[1..][..j];
    }
  }

  /** `s.split(c)` for a one-character separator. */
  function Split(s: string, c: char): (parts: seq<string>)
    ensures |parts| >= 1
    decreases |s|
  {
    if c !in s then [s]
    else
      var i := FirstIndexOf(s, c);
      [s[..i]] + Split(s[i + 1..], c)
  }

  /** The pieces of a split hold no separator, and joining them with the separator
      gives `s` back. */
  lemma {:induction false} SplitSpec(s: string, c: char)
    ensures forall k :: 0 <= k < |Split(s, c)| ==> c !in Split(s, c)[k]
    ensures Join(Split(s, c), [c]) == s
    decreases |s|
  {
    if c in s {
      var i := FirstIndexOf(s, c);
      FirstIndexOfSpec(s, c);
      SplitSpec(s[i + 1..], c);
      assert s == s[..i] + [c] + s[i + 1..];
    }
  }

  /** The first `c` of `a c b` is just after `a` when `a` holds no `c`. */
  lemma {:induction false} SplitHeadAt(a: string, c: char, b: string)
    requires c !in a
    ensures FirstIndexOf(a + [c] + b, c) == |a|
    decreases |a|
  {
    if a != [] {
      assert (a + [c] + b)[1..] == a[1..] + [c] + b;
      SplitHeadAt(a[1..], c, b);
    }
  }

  /** Splitting `a c b` at `c`, where `a` holds no `c`, gives `a` and then the pieces
      of `b`. */
  lemma SplitCons(a: string, c: char, b: string)
    requires c !in a
    ensures Split(a + [c] + b, c) == [a] + Split(b, c)
  {
    var s := a + [c] + b;
    assert s[|a|] == c;
    SplitHeadAt(a, c, b);
    assert s[..|a|] == a && s[|a| + 1..] == b;
  }

  /** The other half of the round trip: splitting a join of separator-free pieces
      gives the pieces back. */
  lemma {:induction false} SplitJoin(parts: seq<string>, c: char)
    requires |parts| >= 1
    requires forall k :: 0 <= k < |parts| ==> c !in parts[k]
    ensures Split(Join(parts, [c]), c) == parts
  {
    if |parts| > 1 {
      SplitJoin(parts[1..], c);
      SplitCons(parts[0], c, Join(parts[1..], [c]));
      assert parts == [parts[0]] + parts[1..];
    } else {
      assert c !in parts[0];
    }
  }

  predicate IsDigit(c: char) {
    '0' <= c <= '9'
  }

  predicate AllDigits(s: string) {
    forall k :: 0 <= k < |s| ==> IsDigit(s[k])
  }

  function DigitChar(d: nat): (c: char)
    requires d < 10
    ensures IsDigit(c)
  {
    (48 + d) as char
  }

  function DigitValue(c: char): (d: nat)
    requires IsDigit(c)
    ensures d < 10 && DigitChar(d) == c
  {
    c as int - 48
  }

  /** The value of a string of decimal digits (the empty string is 0). */
  function DigitsValue(s: string): nat
    requires AllDigits(s)
  {
    if s == [] then 0 else DigitsValue(s[..|s| - 1]) * 10 + DigitValue(s[|s| - 1])
  }

  /** `String(n)` for a non-negative integer. */
  function NatToString(n: nat): (r: string)
    ensures |r| >= 1 && AllDigits(r)
    decreases n
  {
    if n < 10 then [DigitChar(n)] else NatToString(n / 10) + [DigitChar(n % 10)]
  }

  /** `String(n)` is the shortest decimal text of `n`: it reads back as `n` and has no
      leading zero. */
  lemma {:induction false} NatToStringSpec(n: nat)
    ensures DigitsValue(NatToString(n)) == n
    ensures NatToString(n)[0] == '0' ==> n == 0
    decreases n
  {
    var r := NatToString(n);
    if n < 10 {
      assert DigitValue(DigitChar(n)) == n;
    } else {
      var hi := NatToString(n / 10);
      NatToStringSpec(n / 10);
      assert r[..|r| - 1] == hi;
      assert DigitValue(DigitChar(n % 10)) == n % 10;
      assert r[0] == hi[0];
    }
  }

  /** `String(i)` for an integer. */
  function IntToString(i: int): string {
    if i < 0 then "-" + NatToString(-i) else NatToString(i)
  }

  /** `s.padStart(2, '0')`. */
  function PadStart2(s: string): string {
    if |s| >= 2 then s else if |s| == 1 then ['0'] + s else "00"
  }

  /** The longest run of decimal digits at the start of `s`. */
  function DigitPrefix(s: string): (r: string)
    ensures |r| <= |s|
  {
    if s != [] && IsDigit(s[0]) then [s[0]] + DigitPrefix(s[1..]) else []
  }

  /** The digit prefix is a run of digits that starts `s` and that the next character
      (if any) ends; it is all of `s` when `s` is all digits. */
  lemma {:induction false} DigitPrefixSpec(s: string)
    ensures AllDigits(DigitPrefix(s)) && DigitPrefix(s) == s[..|DigitPrefix(s)|]
    ensures |DigitPrefix(s)| < |s| ==> !IsDigit(s[|DigitPrefix(s)|])
    ensures AllDigits(s) ==> DigitPrefix(s) == s
  {
    if s != [] && IsDigit(s[0]) {
      DigitPrefixSpec(s[1..]);
    }
  }

  /** `parseInt(s, 10)`: leading white space, an optional sign, then the longest run
      of decimal digits. `None` stands for NaN: there was no digit to read. */
  function ParseInt(s: string): (r: Option<int>) {
    ParseSigned(TrimStart(s))
  }

  /** `parseInt` after the white space: an optional sign, then the digit run. */
  function ParseSigned(t: string): (r: Option<int>) {
    var neg := t != [] && t[0] == '-';
    var body := if t != [] && (t[0] == '-' || t[0] == '+') then t[1..] else t;
    var ds := DigitPrefix(body);
    DigitPrefixSpec(body);
    var v: int := DigitsValue(ds);
    if ds == [] then None else Some(if neg then -v else v)
  }

  /** A non-empty string of digits reads as its value. */
  lemma ParseIntDigits(s: string)
    requires s != [] && AllDigits(s)
    ensures ParseInt(s) == Some(DigitsValue(s))
  {
    DigitPrefixSpec(s);
    assert LeadingSpace(s) == 0;
  }

  /** Leading white space is skipped, a sign is honoured, and reading stops at the
      first character that is not a digit. */
  lemma ParseIntSignedDigits(ws: string, sign: string, ds: string, rest: string)
    requires AllSpace(ws) && (sign == "" || sign == "-" || sign == "+")
    requires ds != [] && AllDigits(ds) && (rest != [] ==> !IsDigit(rest[0]))
    ensures var v: int := DigitsValue(ds); ParseInt(ws + sign + ds + rest) == Some(if sign == "-" then -v else v)
  {
    var t := sign + ds + rest;
    SignedStart(sign, ds, rest);
    TrimStartAfter(ws, t);
    assert ws + sign + ds + rest == ws + t;
    ParseSignedDigits(sign, ds, rest);
  }

  /** A sign or a digit is not white space. */
  lemma SignedStart(sign: string, ds: string, rest: string)
    requires sign == "" || sign == "-" || sign == "+"
    requires ds != [] && IsDigit(ds[0])
    ensures var t := sign + ds + rest; t != [] && !IsSpace(t[0])
  {
    var t := sign + ds + rest;
    assert t[0] == if sign == "" then ds[0] else sign[0];
  }

  lemma ParseSignedDigits(sign: string, ds: string, rest: string)
    requires sign == "" || sign == "-" || sign == "+"
    requires ds != [] && AllDigits(ds) && (rest != [] ==> !IsDigit(rest[0]))
    ensures var v: int := DigitsValue(ds); ParseSigned(sign + ds + rest) == Some(if sign == "-" then -v else v)
  {
    SignedParts(sign, ds, rest);
    DigitPrefixConcat(ds, rest);
  }

  /** The sign and the body `ParseSigned` sees in `sign + ds + rest`. */
  lemma SignedParts(sign: string, ds: string, rest: string)
    requires sign == "" || sign == "-" || sign == "+"
    requires ds != [] && AllDigits(ds)
    ensures var t := sign + ds + rest;
      && t != [] && (t[0] == '-' <==> sign == "-")
      && (if t[0] == '-' || t[0] == '+' then t[1..] else t) == ds + rest
  {
    var t := sign + ds + rest;
    if sign != "" {
      assert t[0] == sign[0] && t[1..] == ds + rest;
    } else {
      assert t == ds + rest && t[0] == ds[0];
    }
  }

  /** `trim` start drops exactly a white-space run that a non-space character ends. */
  lemma TrimStartAfter(ws: string, t: string)
    requires AllSpace(ws) && (t != [] ==> !IsSpace(t[0]))
    ensures TrimStart(ws + t) == t
  {
    LeadingSpaceAfter(ws, t);
    assert (ws + t)[|ws|..] == t;
  }

  /** White space followed by a character that is not white space: the leading run
      is exactly the white space. */
  lemma {:induction false} LeadingSpaceAfter(ws: string, t: string)
    requires AllSpace(ws) && (t != [] ==> !IsSpace(t[0]))
    ensures LeadingSpace(ws + t) == |ws|
  {
    if ws != [] {
      assert (ws + t)[1..] == ws[1..] + t;
      LeadingSpaceAfter(ws[1..], t);
    } else {
      assert ws + t == t;
    }
  }

  lemma {:induction false} DigitPrefixConcat(ds: string, rest: string)
    requires AllDigits(ds) && (rest != [] ==> !IsDigit(rest[0]))
    ensures DigitPrefix(ds + rest) == ds
  {
    if ds != [] {
      assert (ds + rest)[1..] == ds[1..] + rest;
      DigitPrefixConcat(ds[1..], rest);
    } else {
      assert ds + rest == rest;
    }
  }

  /** With no digit after the white space and the sign, `parseInt` is NaN. */
  lemma ParseIntNoDigits(ws: string, sign: string, rest: string)
    requires AllSpace(ws) && (sign == "" || sign == "-" || sign == "+")
    requires rest != [] ==> !IsDigit(rest[0]) && (sign == "" ==> !IsSpace(rest[0]) && rest[0] != '-' && rest[0] != '+')
    ensures ParseInt(ws + sign + rest) == None
  {
    var t := sign + rest;
    TrimStartAfter(ws, t);
    assert ws + sign + rest == ws + t;
    if sign != "" {
      assert t[0] == sign[0] && t[1..] == rest;
    } else {
      assert t == rest;
    }
  }

  /** JavaScript's `%` on integers: the remainder takes the sign of the dividend,
      and differs from the dividend by a multiple of the divisor. */
  function JsRem(a: int, b: int): (r: int)
    requires b > 0
    ensures a >= 0 ==> r == a % b
    ensures a < 0 ==> -b < r <= 0 && (a - r) % b == 0
  {
    if a >= 0 then a % b
    else
      var r := -((-a) % b);
      ModUnique(a - r, b, -((-a) / b), 0);
      r
  }

  lemma MulAtLeast(d: int, n: int)
    requires d >= 1 && n > 0
    ensures d * n >= n
  {
    assert d * n == (d - 1) * n + n;
  }

  /** Division with remainder is unique: `a == q * n + r` with `0 <= r < n` fixes
      `a % n`. */
  lemma ModUnique(a: int, n: int, q: int, r: int)
    requires n > 0 && 0 <= r < n && a == q * n + r
    ensures a % n == r
  {
    var q', r' := a / n, a % n;
    assert a == q' * n + r';
    assert (q - q') * n == r' - r;
    if q > q' {
      MulAtLeast(q - q', n);
    } else if q < q' {
      MulAtLeast(q' - q, n);
    }
  }
}
