/** The pieces of JavaScript's string library the validators rely on:
    `String.prototype.trim` and `String.prototype.toLowerCase`. */
module JsString {

  /** The WhiteSpace and LineTerminator code points of ECMAScript
      (sections 12.2 and 12.3 of ECMA-262): exactly what `trim` removes and
      what `parseInt` skips before the number. */
  predicate IsJsSpace(c: char) {
    || c == '\t' || c == '\n' || c == '\U{000B}' || c == '\U{000C}' || c == '\r'
    || c == ' ' || c == '\U{00A0}' || c == '\U{1680}'
    || ('\U{2000}' <= c <= '\U{200A}')
    || c == '\U{2028}' || c == '\U{2029}' || c == '\U{202F}' || c == '\U{205F}'
    || c == '\U{3000}' || c == '\U{FEFF}'
  }

  ghost predicate AllSpace(s: string) {
    forall k :: 0 <= k < |s| ==> IsJsSpace(s[k])
  }

  /** Neither end of `s` is whitespace (vacuous for the empty string). */
  ghost predicate NoOuterSpace(s: string) {
    |s| > 0 ==> !IsJsSpace(s[0]) && !IsJsSpace(s[|s| - 1])
  }

  /** The number of whitespace characters `s` starts with. */
  function LeadingSpace(s: string): (i: nat)
    ensures i <= |s|
    ensures forall k :: 0 <= k < i ==> IsJsSpace(s[k])
    ensures i < |s| ==> !IsJsSpace(s[i])
  {
    if |s| > 0 && IsJsSpace(s[0]) then 1 + LeadingSpace(s[1..]) else 0
  }

  /** The length of `s` once its trailing whitespace is cut off. */
  function TrailingSpaceStart(s: string): (j: nat)
    ensures j <= |s|
    ensures forall k :: j <= k < |s| ==> IsJsSpace(s[k])
    ensures j > 0 ==> !IsJsSpace(s[j - 1])
  {
    if |s| > 0 && IsJsSpace(s[|s| - 1]) then TrailingSpaceStart(s[..|s| - 1]) else |s|
  }

  /** `s` without its leading whitespace: the part `parseInt` reads. */
  function TrimStart(s: string): (r: string)
    ensures |r| > 0 ==> !IsJsSpace(r[0])
    ensures AllSpace(s) ==> r == []
  {
    s[LeadingSpace(s)..]
  }

  /** `String.prototype.trim`: the slice of `s` left after removing the
      whitespace at both ends. */
  function Trim(s: string): (r: string)
    ensures NoOuterSpace(r)
    ensures r == [] <==> AllSpace(s)
    ensures NoOuterSpace(s) ==> r == s
    ensures var lead := LeadingSpace(s);
      && lead + |r| <= |s|
      && r == s[lead..lead + |r|]
      && AllSpace(s[lead + |r|..])
  {
    var i := LeadingSpace(s);
    var j := TrailingSpaceStart(s);
    if i == |s| then [] else s[i..j]
  }

  /** Trimming a string that has no outer whitespace changes nothing. */
  lemma TrimNoOuterSpace(s: string)
    requires NoOuterSpace(s)
    ensures Trim(s) == s
  {
  }

  /** `trim` is idempotent. */
  lemma TrimIdempotent(s: string)
    ensures Trim(Trim(s)) == Trim(s)
  {
    TrimNoOuterSpace(Trim(s));
  }

  /** Lower-casing of one character, restricted to ASCII letters. */
  function LowerChar(c: char): (r: char)
    ensures 'A' <= c <= 'Z' ==> 'a' <= r <= 'z' && r as int - c as int == 32
    ensures !('A' <= c <= 'Z') ==> r == c
  {
    if 'A' <= c <= 'Z' then (c as int + 32) as char else c
  }

  /** `String.prototype.toLowerCase` on ASCII letters; every other
      character is left as it is. */
  function ToLowerAscii(s: string): (r: string)
    ensures |r| == |s|
    ensures forall k :: 0 <= k < |s| ==> r[k] == LowerChar(s[k])
  {
    seq(|s|, k requires 0 <= k < |s| => LowerChar(s[k]))
  }

  /** Lower-casing twice is lower-casing once. */
  lemma ToLowerAsciiIdempotent(s: string)
    ensures ToLowerAscii(ToLowerAscii(s)) == ToLowerAscii(s)
  {
  }
}
