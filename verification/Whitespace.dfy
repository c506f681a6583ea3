/** White space as the scripts' string methods and patterns see it. */
module Whitespace {

  /** ECMAScript white space and line terminators: what the class \s matches and trimming drops. */
  predicate White(c: char) {
    '\t' <= c <= '\r' || c == ' ' || c == '\U{A0}' || c == '\U{1680}' || '\U{2000}' <= c <= '\U{200A}' ||
    c == '\U{2028}' || c == '\U{2029}' || c == '\U{202F}' || c == '\U{205F}' || c == '\U{3000}' || c == '\U{FEFF}'
  }

  predicate WhiteIn(s: string, i: int, j: int) {
    0 <= i <= j <= |s| && forall k :: i <= k < j ==> White(s[k])
  }

  function TrimEnd(s: string): (r: string)
    ensures r <= s && WhiteIn(s, |r|, |s|) && (r != "" ==> !White(r[|r| - 1]))
  {
    if s != "" && White(s[|s| - 1]) then TrimEnd(s[..|s| - 1]) else s
  }

  /** Where the white space from `i` on ends. */
  function WhiteEnd(s: string, i: nat): (a: nat)
    requires i <= |s|
    ensures WhiteIn(s, i, a) && (a < |s| ==> !White(s[a]))
    decreases |s| - i
  {
    if i < |s| && White(s[i]) then WhiteEnd(s, i + 1) else i
  }

  /** Where the white space before `j` begins. */
  function WhiteBegin(s: string, j: nat): (b: nat)
    requires j <= |s|
    ensures WhiteIn(s, b, j) && (b > 0 ==> !White(s[b - 1]))
  {
    if j > 0 && White(s[j - 1]) then WhiteBegin(s, j - 1) else j
  }

  /** Both ends trimmed; nothing is left of a text that is all white space. */
  function Trim(s: string): string {
    if WhiteEnd(s, 0) < WhiteBegin(s, |s|) then s[WhiteEnd(s, 0)..WhiteBegin(s, |s|)] else ""
  }

  /** Trimming cuts white space off both ends and nothing else. */
  lemma TrimExactly(s: string) returns (i: nat, j: nat)
    ensures i <= j <= |s| && Trim(s) == s[i..j] && WhiteIn(s, 0, i) && WhiteIn(s, j, |s|)
    ensures Trim(s) != "" ==> !White(s[i]) && !White(s[j - 1])
  {
    i := WhiteEnd(s, 0);
    j := WhiteBegin(s, |s|);
    if j <= i { j := i; }
  }
}
