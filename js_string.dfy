/**
 * The part of JavaScript's string library the to-do list relies on:
 * `String.prototype.trim`, which strips leading and trailing white space
 * and line terminators (ECMAScript's WhiteSpace and LineTerminator sets).
 */
module JsString {

  /** ECMAScript white space (TAB, VT, FF, SP, NBSP, ZWNBSP and every Zs
      character) and line terminators (LF, CR, LS, PS). */
  predicate IsJsWhitespace(c: char)
  {
    c == '\t' || c == '\n' || c == '\U{B}' || c == '\U{C}' || c == '\r' ||
    c == ' ' || c == '\U{A0}' || c == '\U{1680}' ||
    ('\U{2000}' <= c <= '\U{200A}') ||
    c == '\U{2028}' || c == '\U{2029}' || c == '\U{202F}' || c == '\U{205F}' ||
    c == '\U{3000}' || c == '\U{FEFF}'
  }

  /** A string is blank when every character of it is white space. */
  predicate IsBlank(s: string)
  {
    forall i | 0 <= i < |s| :: IsJsWhitespace(s[i])
  }

  /** Where the kept part of `s` starts: the first index at or after `i`
      that is not white space, or `|s|`. */
  function SkipBlankFrom(s: string, i: nat): (k: nat)
    requires i <= |s|
    ensures i <= k <= |s|
    ensures forall j | i <= j < k :: IsJsWhitespace(s[j])
    ensures k < |s| ==> !IsJsWhitespace(s[k])
    decreases |s| - i
  {
    if i < |s| && IsJsWhitespace(s[i]) then SkipBlankFrom(s, i + 1) else i
  }

  /** Where the kept part of `s` ends, scanning down from `j` but not below
      `lo`: just past the last index before `j` that is not white space. */
  function SkipBlankBack(s: string, lo: nat, j: nat): (k: nat)
    requires lo <= j <= |s|
    ensures lo <= k <= j
    ensures forall m | k <= m < j :: IsJsWhitespace(s[m])
    ensures k > lo ==> !IsJsWhitespace(s[k - 1])
  {
    if j > lo && IsJsWhitespace(s[j - 1]) then SkipBlankBack(s, lo, j - 1) else j
  }

  /** `s.trim()`: no longer than `s`, with neither leading nor trailing
      white space, and empty exactly when `s` is blank (`TrimSlice` says
      which slice of `s` it is). */
  function Trim(s: string): (r: string)
    ensures |r| <= |s|
    ensures r != [] ==> !IsJsWhitespace(r[0]) && !IsJsWhitespace(r[|r| - 1])
    ensures r == [] <==> IsBlank(s)
  {
    var start := SkipBlankFrom(s, 0);
    var end := SkipBlankBack(s, start, |s|);
    assert end > start ==> s[start..end][0] == s[start];
    s[start..end]
  }

  /** What `Trim` keeps is a slice of `s` that only white space precedes
      and only white space follows. */
  lemma TrimSlice(s: string)
    ensures exists start | 0 <= start <= |s| - |Trim(s)| ::
      Trim(s) == s[start..start + |Trim(s)|] &&
      IsBlank(s[..start]) && IsBlank(s[start + |Trim(s)|..])
  {
    var start := SkipBlankFrom(s, 0);
    var end := SkipBlankBack(s, start, |s|);
    assert Trim(s) == s[start..end];
    assert IsBlank(s[..start]) by {
      forall i | 0 <= i < start ensures IsJsWhitespace(s[..start][i]) {
        assert s[..start][i] == s[i];
      }
    }
    var tail := s[end..];
    assert IsBlank(tail) by {
      forall i | 0 <= i < |tail| ensures IsJsWhitespace(tail[i]) {
        assert tail[i] == s[end + i];
      }
    }
  }
}
