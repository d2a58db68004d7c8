/** `escapeICS`: TEXT property values of section 3.3.11 of RFC 5545. A backslash,
    semicolon or comma is preceded by a backslash and a line feed becomes `\n`.
    The script does it as four global replacements, backslash first; the model
    proves that chain equal to a one-character-at-a-time escape, and that the
    unescaping the standard prescribes gives the text back. */
module IcsText {
  import opened JsText

  /** The four passes of `escapeICS`, in the script's order, on a string. */
  function EscapeChain(s: string): string {
    ReplaceAll(ReplaceAll(ReplaceAll(ReplaceAll(s, '\\', "\\\\"), ';', "\\;"), ',', "\\,"), '\n', "\\n")
  }

  /** `escapeICS(text)`: `String(text || '')` first, so a missing (`None`) or empty
      text gives the empty string. */
  function EscapeIcs(text: Option<string>): string {
    match text
    case None => ""
    case Some(s) => EscapeChain(s)
  }

  /** The characters that TEXT values must escape. */
  predicate IsSpecial(c: char) {
    c == '\\' || c == ';' || c == ',' || c == '\n'
  }

  /** The escape of one character (the reference definition). */
  function EscapeChar(c: char): (r: string)
    ensures |r| == if IsSpecial(c) then 2 else 1
  {
    if c == '\\' then "\\\\"
    else if c == ';' then "\\;"
    else if c == ',' then "\\,"
    else if c == '\n' then "\\n"
    else [c]
  }

  /** Character-by-character escape. */
  function EscapeText(s: string): string {
    if s == [] then [] else EscapeChar(s[0]) + EscapeText(s[1..])
  }

  /** Number of characters of `s` that need escaping. */
  function SpecialCount(s: string): nat {
    if s == [] then 0 else (if IsSpecial(s[0]) then 1 else 0) + SpecialCount(s[1..])
  }

  lemma {:induction false} EscapeChainConcat(a: string, b: string)
    ensures EscapeChain(a + b) == EscapeChain(a) + EscapeChain(b)
  {
    var s1a, s1b := ReplaceAll(a, '\\', "\\\\"), ReplaceAll(b, '\\', "\\\\");
    ReplaceAllConcat(a, b, '\\', "\\\\");
    var s2a, s2b := ReplaceAll(s1a, ';', "\\;"), ReplaceAll(s1b, ';', "\\;");
    ReplaceAllConcat(s1a, s1b, ';', "\\;");
    var s3a, s3b := ReplaceAll(s2a, ',', "\\,"), ReplaceAll(s2b, ',', "\\,");
    ReplaceAllConcat(s2a, s2b, ',', "\\,");
    ReplaceAllConcat(s3a, s3b, '\n', "\\n");
  }

  /** A one-step pass over a string without the pattern character is the identity;
      over the one-character string `[c]` it is the replacement. */
  lemma ReplaceAllOne(c: char, p: char, t: string)
    ensures ReplaceAll([c], p, t) == if c == p then t else [c]
  {
    assert [c][1..] == [];
  }

  lemma ReplaceAllFree(s: string, p: char, t: string)
    requires p !in s
    ensures ReplaceAll(s, p, t) == s
  {
    ReplaceAllAbsent(s, p, t);
  }

  /** On one character the chain is the reference escape: what an earlier pass
      inserts is never touched by a later one. */
  lemma EscapeChainChar(c: char)
    ensures EscapeChain([c]) == EscapeChar(c)
  {
    ReplaceAllOne(c, '\\', "\\\\");
    var s1 := ReplaceAll([c], '\\', "\\\\");
    if c == '\\' {
      ReplaceAllFree(s1, ';', "\\;");
      ReplaceAllFree(s1, ',', "\\,");
      ReplaceAllFree(s1, '\n', "\\n");
    } else {
      ReplaceAllOne(c, ';', "\\;");
      var s2 := ReplaceAll([c], ';', "\\;");
      if c == ';' {
        ReplaceAllFree(s2, ',', "\\,");
        ReplaceAllFree(s2, '\n', "\\n");
      } else {
        ReplaceAllOne(c, ',', "\\,");
        var s3 := ReplaceAll([c], ',', "\\,");
        if c == ',' {
          ReplaceAllFree(s3, '\n', "\\n");
        } else {
          ReplaceAllOne(c, '\n', "\\n");
        }
      }
    }
  }

  /** The script's replace chain computes the character-by-character escape. */
  lemma {:induction false} EscapeChainIsEscapeText(s: string)
    ensures EscapeChain(s) == EscapeText(s)
  {
    if s != [] {
      assert s == [s[0]] + s[1..];
      EscapeChainConcat([s[0]], s[1..]);
      EscapeChainChar(s[0]);
      EscapeChainIsEscapeText(s[1..]);
    } else {
      assert ReplaceAll([], '\\', "\\\\") == [];
    }
  }

  /** Each special character adds one backslash: the output is as long as the
      input plus the number of characters that needed escaping. */
  lemma {:induction false} EscapeTextLength(s: string)
    ensures |EscapeText(s)| == |s| + SpecialCount(s)
  {
    if s != [] {
      EscapeTextLength(s[1..]);
    }
  }

  /** Text with nothing to escape is left as it is. */
  lemma {:induction false} EscapeTextPlain(s: string)
    requires forall k :: 0 <= k < |s| ==> !IsSpecial(s[k])
    ensures EscapeText(s) == s
  {
    if s != [] {
      EscapeTextPlain(s[1..]);
      assert s == [s[0]] + s[1..];
    }
  }

  /** RFC 5545 unescaping of a TEXT value: `\\`, `\;`, `\,` and `\n` or `\N` stand
      for backslash, semicolon, comma and line feed. A bare `;`, `,` or line feed, a
      lone trailing backslash or any other escape is not valid TEXT (`None`). */
  function Unescape(s: string): Option<string>
    decreases |s|
  {
    if s == [] then Some([])
    else if s[0] == '\\' then
      if |s| < 2 then None
      else
        var c := s[1];
        var d := if c == '\\' then Some('\\') else if c == ';' then Some(';')
          else if c == ',' then Some(',') else if c == 'n' || c == 'N' then Some('\n') else None;
        match d
        case None => None
        case Some(x) =>
          match Unescape(s[2..])
          case None => None
          case Some(rest) => Some([x] + rest)
    else if s[0] == ';' || s[0] == ',' || s[0] == '\n' then None
    else
      match Unescape(s[1..])
      case None => None
      case Some(rest) => Some([s[0]] + rest)
  }

  lemma UnescapeCharThen(c: char, rest: string)
    ensures Unescape(EscapeChar(c) + rest) ==
      match Unescape(rest) case None => None case Some(r) => Some([c] + r)
  {
    var e := EscapeChar(c);
    if IsSpecial(c) {
      assert (e + rest)[0] == '\\' && (e + rest)[1] == e[1];
      assert (e + rest)[2..] == rest;
    } else {
      assert (e + rest)[0] == c;
      assert (e + rest)[1..] == rest;
    }
  }

  /** The round trip: unescaping the escape of any text gives the text back. */
  lemma {:induction false} UnescapeEscape(s: string)
    ensures Unescape(EscapeText(s)) == Some(s)
  {
    if s != [] {
      UnescapeEscape(s[1..]);
      UnescapeCharThen(s[0], EscapeText(s[1..]));
      assert [s[0]] + s[1..] == s;
    }
  }

  /** The escape never holds a line feed, so it stays on one content line. */
  lemma {:induction false} EscapeTextNoLineFeed(s: string)
    ensures '\n' !in EscapeText(s)
  {
    if s != [] {
      EscapeTextNoLineFeed(s[1..]);
      var e := EscapeChar(s[0]);
      assert '\n' !in e;
    }
  }

  /** `escapeICS` is the reference escape of `text || ''`, and so it satisfies all of
      the above. */
  lemma EscapeIcsSpec(text: Option<string>)
    ensures text.None? ==> EscapeIcs(text) == ""
    ensures text.Some? ==> EscapeIcs(text) == EscapeText(text.value)
    ensures text.Some? ==> Unescape(EscapeIcs(text)) == text
  {
    if text.Some? {
      EscapeChainIsEscapeText(text.value);
      UnescapeEscape(text.value);
    }
  }

  /** `a;b,c` with a line break and a backslash. */
  lemma EscapeIcsExample(s: string)
    requires s == "a;b,c\n\\d"
    ensures EscapeIcs(Some(s)) == "a\\;b\\,c\\n\\\\d"
  {
    EscapeChainIsEscapeText(s);
    EscapeExampleText(s);
  }

  lemma EscapeTextCons(c: char, t: string)
    ensures EscapeText([c] + t) == EscapeChar(c) + EscapeText(t)
  {
    assert ([c] + t)[1..] == t;
  }

  lemma EscapeExampleText(s: string)
    requires s == "a;b,c\n\\d"
    ensures EscapeText(s) == "a\\;b\\,c\\n\\\\d"
  {
    EscapeTextCons('d', []);
    EscapeTextCons('\\', "d");
    EscapeTextCons('\n', "\\d");
    EscapeTextCons('c', "\n\\d");
    EscapeTextCons(',', "c\n\\d");
    EscapeTextCons('b', ",c\n\\d");
    EscapeTextCons(';', "b,c\n\\d");
    EscapeTextCons('a', ";b,c\n\\d");
  }
}
