/**
 * `String.prototype.trim` as used by the row editor's guard: it removes
 * leading and trailing white space and line terminators as ECMAScript
 * defines them (sections 12.2 and 12.3 of ECMA-262).
 */
module Text {

  /** ECMAScript WhiteSpace (TAB, VT, FF, ZWNBSP, every Zs space) or LineTerminator. */
  predicate IsWhitespace(c: char)
  {
    c == '\t' || c == '\n' || c == '\U{B}' || c == '\U{C}' || c == '\r' ||
    c == ' ' || c == '\U{A0}' || c == '\U{1680}' ||
    ('\U{2000}' <= c <= '\U{200A}') ||
    c == '\U{2028}' || c == '\U{2029}' || c == '\U{202F}' || c == '\U{205F}' ||
    c == '\U{3000}' || c == '\U{FEFF}'
  }

  /** True when every character of `s` is white space (so also for ""). */
  predicate Blank(s: string)
  {
    forall i :: 0 <= i < |s| ==> IsWhitespace(s[i])
  }

  /** Index of the first character at or after `i` that is not white space, or `|s|`. */
  function SkipLeading(s: string, i: nat): (k: nat)
    requires i <= |s|
    ensures i <= k <= |s|
    ensures forall j :: i <= j < k ==> IsWhitespace(s[j])
    ensures k < |s| ==> !IsWhitespace(s[k])
    decreases |s| - i
  {
    if i < |s| && IsWhitespace(s[i]) then SkipLeading(s, i + 1) else i
  }

  /** The end of `s[lo..hi]` once its trailing white space is dropped. */
  function SkipTrailing(s: string, lo: nat, hi: nat): (e: nat)
    requires lo <= hi <= |s|
    ensures lo <= e <= hi
    ensures forall j :: e <= j < hi ==> IsWhitespace(s[j])
    ensures lo < e ==> !IsWhitespace(s[e - 1])
    decreases hi
  {
    if lo < hi && IsWhitespace(s[hi - 1]) then SkipTrailing(s, lo, hi - 1) else hi
  }

  /** `s.trim()`: empty exactly for all-white-space text, otherwise not white at either end. */
  function Trim(s: string): (r: string)
    ensures |r| <= |s|
    ensures r == "" <==> Blank(s)
    ensures r != "" ==> !IsWhitespace(r[0]) && !IsWhitespace(r[|r| - 1])
  {
    var k := SkipLeading(s, 0);
    var e := SkipTrailing(s, k, |s|);
    assert k < |s| ==> k < e;
    s[k..e]
  }

  /** `s` is a blank prefix, then `s.trim()`, then a blank suffix. */
  lemma TrimSplits(s: string)
    ensures exists k :: (0 <= k <= |s| - |Trim(s)| && Blank(s[..k]) &&
                         Trim(s) == s[k..][..|Trim(s)|] && Blank(s[k..][|Trim(s)|..]))
  {
    var k := SkipLeading(s, 0);
    var e := SkipTrailing(s, k, |s|);
    assert Trim(s) == s[k..e] == s[k..][..e - k];
    assert s[k..][e - k..] == s[e..];
    assert Blank(s[..k]) && Blank(s[e..]);
  }
}
