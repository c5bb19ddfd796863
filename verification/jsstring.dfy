/** The JavaScript string operations the handlers rely on: `trim`,
    `toLowerCase` (ASCII letters only) and `slice(0, n)`. */
module JsString {

  /** WhiteSpace and LineTerminator code points that `String.prototype.trim`
      strips, as ECMA-262 defines them. */
  predicate IsJsWhitespace(c: char) {
    || c == '\t' || c == '\n' || c == '\U{000B}' || c == '\U{000C}' || c == '\r'
    || c == ' ' || c == '\U{00A0}' || c == '\U{1680}'
    || ('\U{2000}' <= c <= '\U{200A}')
    || c == '\U{2028}' || c == '\U{2029}' || c == '\U{202F}' || c == '\U{205F}'
    || c == '\U{3000}' || c == '\U{FEFF}'
  }

  /** The first index at or after `i` that does not hold whitespace
      (or `|s|`): everything skipped is whitespace. */
  function SkipLeading(s: string, i: nat): (j: nat)
    requires i <= |s|
    ensures i <= j <= |s|
    ensures forall k :: i <= k < j ==> IsJsWhitespace(s[k])
    ensures j < |s| ==> !IsJsWhitespace(s[j])
    decreases |s| - i
  {
    if i < |s| && IsJsWhitespace(s[i]) then SkipLeading(s, i + 1) else i
  }

  /** The end of `s[lo..j]` once trailing whitespace is dropped: everything
      dropped is whitespace, and the character before the end is not. */
  function SkipTrailing(s: string, lo: nat, j: nat): (e: nat)
    requires lo <= j <= |s|
    ensures lo <= e <= j
    ensures forall k :: e <= k < j ==> IsJsWhitespace(s[k])
    ensures lo < e ==> !IsJsWhitespace(s[e - 1])
    decreases j
  {
    if lo < j && IsJsWhitespace(s[j - 1]) then SkipTrailing(s, lo, j - 1) else j
  }

  /** `s.trim()`: the infix of `s` left once leading and trailing whitespace
      is dropped. Only whitespace surrounds it, it neither starts nor ends
      with whitespace, and it is empty exactly when `s` is all whitespace. */
  function Trim(s: string): (r: string)
    ensures exists a, b :: 0 <= a <= b <= |s| && r == s[a..b]
                           && (forall k :: 0 <= k < a ==> IsJsWhitespace(s[k]))
                           && (forall k :: b <= k < |s| ==> IsJsWhitespace(s[k]))
    ensures r != [] ==> !IsJsWhitespace(r[0]) && !IsJsWhitespace(r[|r| - 1])
    ensures r == [] <==> forall k :: 0 <= k < |s| ==> IsJsWhitespace(s[k])
  {
    var a := SkipLeading(s, 0);
    var b := SkipTrailing(s, a, |s|);
    assert a < b ==> s[a..b][0] == s[a] && s[a..b][b - a - 1] == s[b - 1];
    s[a..b]
  }

  /** `s.toLowerCase()` restricted to the ASCII letters A-Z. */
  function AsciiLower(s: string): (r: string)
    ensures |r| == |s|
    ensures forall i :: 0 <= i < |s| ==> r[i] == LowerChar(s[i])
  {
    if s == [] then [] else [LowerChar(s[0])] + AsciiLower(s[1..])
  }

  function LowerChar(c: char): char {
    if 'A' <= c <= 'Z' then (c as int - 'A' as int + 'a' as int) as char else c
  }

  /** `s.slice(0, n)`: the first `n` characters, or all of `s` when shorter. */
  function Prefix(s: string, n: nat): (r: string)
    ensures r <= s
    ensures |r| == (if |s| <= n then |s| else n)
    ensures |s| <= n ==> r == s
  {
    if |s| <= n then s else s[..n]
  }
}
