/** `escapeHtml` of public/app.js: a chain of global replacements that turns
    the five HTML-special characters into character references. */
module Escape {

  /** `s.replace(/c/g, rep)`: every occurrence of `c` in `s` replaced by `rep`,
      everything else kept in order. */
  function ReplaceAll(s: string, c: char, rep: string): (r: string)
    ensures c !in rep ==> c !in r
    ensures c !in s ==> r == s
    ensures forall d :: d in r ==> d in rep || (d in s && d != c)
    ensures |rep| >= 1 ==> |r| >= |s|
  {
    if s == [] then []
    else (if s[0] == c then rep else [s[0]]) + ReplaceAll(s[1..], c, rep)
  }

  /** The replacement chain exactly as the client writes it: `&` first, then
      `<`, `>`, `"` and `'`. */
  function EscapeHtml(s: string): (r: string)
    ensures '<' !in r && '>' !in r && '"' !in r && '\'' !in r
    ensures |r| >= |s|
  {
    var amp := ReplaceAll(s, '&', "&amp;");
    var lt := ReplaceAll(amp, '<', "&lt;");
    var gt := ReplaceAll(lt, '>', "&gt;");
    var quot := ReplaceAll(gt, '"', "&quot;");
    assert '<' !in gt && '>' !in gt by {
      assert "&gt;" == ['&', 'g', 't', ';'];
    }
    assert '<' !in quot && '>' !in quot && '"' !in quot by {
      assert "&quot;" == ['&', 'q', 'u', 'o', 't', ';'];
    }
    assert "&#039;" == ['&', '#', '0', '3', '9', ';'];
    ReplaceAll(quot, '\'', "&#039;")
  }

  predicate IsSpecial(c: char) {
    c == '&' || c == '<' || c == '>' || c == '"' || c == '\''
  }

  /** The character reference that stands for one character. */
  function EscapeChar(c: char): string {
    match c
    case '&' => "&amp;"
    case '<' => "&lt;"
    case '>' => "&gt;"
    case '"' => "&quot;"
    case '\'' => "&#039;"
    case _ => [c]
  }

  /** Reference definition: escape each character on its own, left to right. */
  function EscapeEach(s: string): string {
    if s == [] then [] else EscapeChar(s[0]) + EscapeEach(s[1..])
  }

  /** Reads the character references back (the inverse of escaping). */
  function Unescape(t: string): string
    decreases |t|
  {
    if t == [] then []
    else if "&amp;" <= t then "&" + Unescape(t[5..])
    else if "&lt;" <= t then "<" + Unescape(t[4..])
    else if "&gt;" <= t then ">" + Unescape(t[4..])
    else if "&quot;" <= t then "\"" + Unescape(t[6..])
    else if "&#039;" <= t then "'" + Unescape(t[6..])
    else [t[0]] + Unescape(t[1..])
  }

  /** No character that could open or close a tag or an attribute value. */
  predicate NoMarkup(t: string) {
    forall i :: 0 <= i < |t| ==> t[i] != '<' && t[i] != '>' && t[i] != '"' && t[i] != '\''
  }

  predicate EntityAt(t: string, i: nat)
    requires i <= |t|
  {
    || "&amp;" <= t[i..] || "&lt;" <= t[i..] || "&gt;" <= t[i..]
    || "&quot;" <= t[i..] || "&#039;" <= t[i..]
  }

  /** Every `&` begins one of the five character references. */
  predicate AmpersandsBeginEntities(t: string) {
    forall i :: 0 <= i < |t| && t[i] == '&' ==> EntityAt(t, i)
  }

  lemma {:induction false} ReplaceAllAppend(a: string, b: string, c: char, rep: string)
    ensures ReplaceAll(a + b, c, rep) == ReplaceAll(a, c, rep) + ReplaceAll(b, c, rep)
  {
    if a == [] {
      assert a + b == b;
    } else {
      assert (a + b)[0] == a[0] && (a + b)[1..] == a[1..] + b;
      ReplaceAllAppend(a[1..], b, c, rep);
    }
  }

  lemma EscapeHtmlAppend(a: string, b: string)
    ensures EscapeHtml(a + b) == EscapeHtml(a) + EscapeHtml(b)
  {
    var r1a, r1b := ReplaceAll(a, '&', "&amp;"), ReplaceAll(b, '&', "&amp;");
    ReplaceAllAppend(a, b, '&', "&amp;");
    var r2a, r2b := ReplaceAll(r1a, '<', "&lt;"), ReplaceAll(r1b, '<', "&lt;");
    ReplaceAllAppend(r1a, r1b, '<', "&lt;");
    var r3a, r3b := ReplaceAll(r2a, '>', "&gt;"), ReplaceAll(r2b, '>', "&gt;");
    ReplaceAllAppend(r2a, r2b, '>', "&gt;");
    var r4a, r4b := ReplaceAll(r3a, '"', "&quot;"), ReplaceAll(r3b, '"', "&quot;");
    ReplaceAllAppend(r3a, r3b, '"', "&quot;");
    ReplaceAllAppend(r4a, r4b, '\'', "&#039;");
  }

  /** On a single character the chain yields that character's reference:
      the `&` inserted by an earlier step is never escaped again. */
  lemma EscapeHtmlChar(c: char)
    ensures EscapeHtml([c]) == EscapeChar(c)
  {
    ReplaceAllSingle(c, '&', "&amp;");
    if c == '&' {
      LaterStepsKeep("&amp;");
    } else {
      LaterStepsOnChar(c);
    }
  }

  /** Steps two to five of the chain leave text without `<`, `>`, `"`, `'`. */
  lemma LaterStepsKeep(e: string)
    requires '<' !in e && '>' !in e && '"' !in e && '\'' !in e
    ensures ReplaceAll(ReplaceAll(ReplaceAll(ReplaceAll(
              e, '<', "&lt;"), '>', "&gt;"), '"', "&quot;"), '\'', "&#039;") == e
  {
  }

  lemma LaterStepsOnChar(c: char)
    requires c != '&'
    ensures ReplaceAll(ReplaceAll(ReplaceAll(ReplaceAll(
              [c], '<', "&lt;"), '>', "&gt;"), '"', "&quot;"), '\'', "&#039;") == EscapeChar(c)
  {
    ReplaceAllSingle(c, '<', "&lt;");
    if c == '<' {
      LaterStepsKeep("&lt;");
    } else {
      LastThreeOnChar(c);
    }
  }

  lemma LastThreeOnChar(c: char)
    requires c != '&' && c != '<'
    ensures ReplaceAll(ReplaceAll(ReplaceAll(
              [c], '>', "&gt;"), '"', "&quot;"), '\'', "&#039;") == EscapeChar(c)
  {
    ReplaceAllSingle(c, '>', "&gt;");
    if c == '>' {
      LastTwoKeep("&gt;");
    } else {
      LastTwoOnChar(c);
    }
  }

  lemma LastTwoKeep(e: string)
    requires '"' !in e && '\'' !in e
    ensures ReplaceAll(ReplaceAll(e, '"', "&quot;"), '\'', "&#039;") == e
  {
  }

  lemma LastTwoOnChar(c: char)
    requires c != '&' && c != '<' && c != '>'
    ensures ReplaceAll(ReplaceAll([c], '"', "&quot;"), '\'', "&#039;") == EscapeChar(c)
  {
    ReplaceAllSingle(c, '"', "&quot;");
    if c == '"' {
      assert '\'' !in "&quot;";
    } else {
      ReplaceAllSingle(c, '\'', "&#039;");
    }
  }

  lemma ReplaceAllSingle(x: char, c: char, rep: string)
    ensures ReplaceAll([x], c, rep) == if x == c then rep else [x]
  {
    assert [x][1..] == [];
  }

  /** The replacement chain equals escaping each character on its own. */
  lemma {:induction false} EscapeHtmlIsPerChar(s: string)
    ensures EscapeHtml(s) == EscapeEach(s)
  {
    if s != [] {
      assert s == [s[0]] + s[1..];
      EscapeHtmlAppend([s[0]], s[1..]);
      EscapeHtmlChar(s[0]);
      EscapeHtmlIsPerChar(s[1..]);
    }
  }

  lemma {:induction false} EscapeEachSafe(s: string)
    ensures NoMarkup(EscapeEach(s)) && AmpersandsBeginEntities(EscapeEach(s))
  {
    if s != [] {
      var head, tail := EscapeChar(s[0]), EscapeEach(s[1..]);
      EscapeEachSafe(s[1..]);
      var t := head + tail;
      forall i | 0 <= i < |t| && t[i] == '&' ensures EntityAt(t, i) {
        if i < |head| {
          assert i == 0 && t[i..] == head + tail;
        } else {
          assert t[i..] == tail[i - |head|..];
          assert tail[i - |head|] == '&';
        }
      }
    }
  }

  /** The output holds none of `<`, `>`, `"`, `'`, and each `&` in it starts
      `&amp;`, `&lt;`, `&gt;`, `&quot;` or `&#039;`. */
  lemma EscapeHtmlSafe(s: string)
    ensures NoMarkup(EscapeHtml(s))
    ensures AmpersandsBeginEntities(EscapeHtml(s))
  {
    EscapeHtmlIsPerChar(s);
    EscapeEachSafe(s);
  }

  lemma UnescapeChar(c: char, rest: string)
    ensures Unescape(EscapeChar(c) + rest) == [c] + Unescape(rest)
  {
    var t := EscapeChar(c) + rest;
    if !IsSpecial(c) {
      assert t[0] == c && t[1..] == rest;
    } else if c == '&' {
      assert t[5..] == rest;
    } else if c == '<' {
      assert t[1] == 'l' && t[4..] == rest;
    } else if c == '>' {
      assert t[1] == 'g' && t[4..] == rest;
    } else if c == '"' {
      assert t[1] == 'q' && t[6..] == rest;
    } else {
      assert t[1] == '#' && t[6..] == rest;
    }
  }

  lemma {:induction false} UnescapeEscapeEach(s: string)
    ensures Unescape(EscapeEach(s)) == s
  {
    if s != [] {
      UnescapeChar(s[0], EscapeEach(s[1..]));
      UnescapeEscapeEach(s[1..]);
    }
  }

  /** Nothing is lost: every character, special or not, is recovered in
      order from the output. */
  lemma EscapeHtmlRoundTrip(s: string)
    ensures Unescape(EscapeHtml(s)) == s
  {
    EscapeHtmlIsPerChar(s);
    UnescapeEscapeEach(s);
  }

  /** Text without special characters is left as it is. */
  lemma {:induction false} EscapeHtmlPlain(s: string)
    requires forall i :: 0 <= i < |s| ==> !IsSpecial(s[i])
    ensures EscapeHtml(s) == s
  {
    EscapeHtmlIsPerChar(s);
    EscapeEachPlain(s);
  }

  lemma {:induction false} EscapeEachPlain(s: string)
    requires forall i :: 0 <= i < |s| ==> !IsSpecial(s[i])
    ensures EscapeEach(s) == s
  {
    if s != [] {
      EscapeEachPlain(s[1..]);
    }
  }
}
