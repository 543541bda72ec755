/** The three JavaScript string operations the task list relies on:
    `String.prototype.trim` (for the submitted input), `toLowerCase` and
    `includes` (for the case-insensitive search). */
module Text {

  /** The ECMAScript WhiteSpace and LineTerminator code points, which `trim` strips
      from both ends: TAB, LF, VT, FF, CR, SPACE, NBSP, the Unicode space separators,
      LINE SEPARATOR, PARAGRAPH SEPARATOR and the byte order mark. */
  predicate IsWhitespace(c: char)
  {
    c == '\t' || c == '\n' || c == '\U{000B}' || c == '\U{000C}' || c == '\r' || c == ' '
    || c == '\U{00A0}' || c == '\U{1680}' || ('\U{2000}' <= c <= '\U{200A}')
    || c == '\U{2028}' || c == '\U{2029}' || c == '\U{202F}' || c == '\U{205F}'
    || c == '\U{3000}' || c == '\U{FEFF}'
  }

  predicate AllWhitespace(s: string)
  {
    forall k :: 0 <= k < |s| ==> IsWhitespace(s[k])
  }

  /** The first position at or after `i` that does not hold whitespace (or `|s|`). */
  function ContentStart(s: string, i: nat): (j: nat)
    requires i <= |s|
    decreases |s| - i
    ensures i <= j <= |s|
    ensures j == |s| || !IsWhitespace(s[j])
    ensures forall k :: i <= k < j ==> IsWhitespace(s[k])
  {
    if i < |s| && IsWhitespace(s[i]) then ContentStart(s, i + 1) else i
  }

  /** Scanning down from `j` to `lo`, the position just after the last character
      that is not whitespace (or `lo`). */
  function ContentEnd(s: string, lo: nat, j: nat): (e: nat)
    requires lo <= j <= |s|
    ensures lo <= e <= j
    ensures e == lo || !IsWhitespace(s[e - 1])
    ensures forall k :: e <= k < j ==> IsWhitespace(s[k])
  {
    if lo < j && IsWhitespace(s[j - 1]) then ContentEnd(s, lo, j - 1) else j
  }

  /** `s.trim()`: leading and trailing whitespace cut off. */
  function Trim(s: string): (r: string)
    ensures |r| <= |s|
    ensures r == [] || (!IsWhitespace(r[0]) && !IsWhitespace(r[|r| - 1]))
  {
    var i := ContentStart(s, 0);
    s[i..ContentEnd(s, i, |s|)]
  }

  /** The trimmed string is an infix of `s` that is flanked by whitespace only. */
  lemma TrimInfix(s: string) returns (i: nat)
    ensures i + |Trim(s)| <= |s| && Trim(s) == s[i..i + |Trim(s)|]
    ensures AllWhitespace(s[..i]) && AllWhitespace(s[i + |Trim(s)|..])
  {
    i := ContentStart(s, 0);
    var e := ContentEnd(s, i, |s|);
    assert Trim(s) == s[i..e];
  }

  /** `trim` yields the empty string exactly when `s` is all whitespace
      (the empty string included). */
  lemma TrimEmptyIff(s: string)
    ensures Trim(s) == [] <==> AllWhitespace(s)
  {
    var i := ContentStart(s, 0);
    var e := ContentEnd(s, i, |s|);
    if Trim(s) == [] {
      assert e == i;
      forall k | 0 <= k < |s|
        ensures IsWhitespace(s[k])
      {
      }
    } else {
      assert !IsWhitespace(s[i]);
    }
  }

  /** A string that neither starts nor ends with whitespace is its own trim. */
  lemma TrimKeepsTrimmed(s: string)
    requires s == [] || (!IsWhitespace(s[0]) && !IsWhitespace(s[|s| - 1]))
    ensures Trim(s) == s
  {
    if s != [] {
      assert ContentStart(s, 0) == 0;
      assert ContentEnd(s, 0, |s|) == |s|;
    }
  }

  /** Trimming a trimmed string changes nothing. */
  lemma TrimIdempotent(s: string)
    ensures Trim(Trim(s)) == Trim(s)
  {
    TrimKeepsTrimmed(Trim(s));
  }

  /** ASCII lower-casing of one character. */
  function LowerChar(c: char): (r: char)
    ensures !('A' <= r <= 'Z')
    ensures 'A' <= c <= 'Z' ==> r as int == c as int + 32
    ensures !('A' <= c <= 'Z') ==> r == c
  {
    if 'A' <= c <= 'Z' then (c as int + 32) as char else c
  }

  /** `s.toLowerCase()`, restricted to the ASCII letters. */
  function Lower(s: string): (r: string)
    ensures |r| == |s|
    ensures forall k :: 0 <= k < |s| ==> r[k] == LowerChar(s[k])
  {
    if s == [] then [] else [LowerChar(s[0])] + Lower(s[1..])
  }

  /** Lower-casing twice is lower-casing once. */
  lemma LowerIdempotent(s: string)
    ensures Lower(Lower(s)) == Lower(s)
  {
  }

  /** `s.includes(sub)`: `sub` occurs in `s` at some offset. The empty string
      is included in every string, and no string includes a longer one. */
  function Includes(s: string, sub: string): (b: bool)
    ensures sub == [] ==> b
    ensures b ==> |sub| <= |s|
  {
    assert sub == [] ==> OccursAt(s, sub, 0);
    exists i :: 0 <= i <= |s| - |sub| && OccursAt(s, sub, i)
  }

  /** `sub` is the slice of `s` that starts at offset `i`. */
  predicate OccursAt(s: string, sub: string, i: int)
  {
    0 <= i <= |s| - |sub| && s[i..i + |sub|] == sub
  }

  /** Every string includes itself. */
  lemma IncludesSelf(s: string)
    ensures Includes(s, s)
  {
    assert OccursAt(s, s, 0);
  }
}
