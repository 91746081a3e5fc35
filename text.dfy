/**
 * String primitives with the meaning the gate's PHP code gives them: PCRE's word characters,
 * its `$` anchor, PHP's `strtolower`, `trim` and `empty`.
 */
module Text {

  /** `[A-Za-z0-9_]`: a word character for PCRE's `\b` with its default tables and no UTF mode. */
  predicate IsWordChar(c: char) {
    ('a' <= c <= 'z') || ('A' <= c <= 'Z') || ('0' <= c <= '9') || c == '_'
  }

  /** Position `i` of `s` holds a word character; positions outside `s` never do. */
  predicate IsWordAt(s: string, i: int) {
    0 <= i < |s| && IsWordChar(s[i])
  }

  /** `p` occurs in `s` at offset `i`. */
  predicate IsPrefixAt(p: string, s: string, i: nat) {
    i + |p| <= |s| && s[i..i + |p|] == p
  }

  /** `p` occurs somewhere in `s` (an unanchored PCRE literal). */
  predicate Contains(s: string, p: string) {
    exists i :: 0 <= i <= |s| - |p| && IsPrefixAt(p, s, i)
  }

  predicate EndsWith(s: string, suffix: string) {
    |suffix| <= |s| && s[|s| - |suffix|..] == suffix
  }

  /**
   * The PCRE pattern `lit$` without the multiline or dollar-end-only modifiers: `$` matches at the
   * very end of the subject and also just before a newline that ends it.
   */
  predicate EndAnchored(s: string, lit: string) {
    EndsWith(s, lit) || EndsWith(s, lit + "\n")
  }

  /** PHP's `strtolower` on one character: ASCII letters only. */
  function LowerChar(c: char): (r: char)
    ensures IsWordChar(c) <==> IsWordChar(r)
    ensures 'A' <= c <= 'Z' ==> 'a' <= r <= 'z' && r as int == c as int + 32
    ensures !('A' <= c <= 'Z') ==> r == c
  {
    if 'A' <= c <= 'Z' then (c as int + 32) as char else c
  }

  function Lower(s: string): (r: string)
    ensures |r| == |s|
    ensures forall i :: 0 <= i < |s| ==> r[i] == LowerChar(s[i])
  {
    if s == [] then [] else [LowerChar(s[0])] + Lower(s[1..])
  }

  /** Lower-casing treats the parts of a concatenation separately. */
  lemma LowerConcat(a: string, b: string)
    ensures Lower(a + b) == Lower(a) + Lower(b)
  {
    assert forall i :: 0 <= i < |a + b| ==> Lower(a + b)[i] == (Lower(a) + Lower(b))[i];
  }

  /** The characters PHP's `trim` removes by default: space, tab, LF, CR, NUL and vertical tab. */
  predicate IsTrimmable(c: char) {
    c == ' ' || c == '\t' || c == '\n' || c == '\r' || c == '\0' || c == '\U{000B}'
  }

  function TrimStart(s: string): string
  {
    if s != [] && IsTrimmable(s[0]) then TrimStart(s[1..]) else s
  }

  function TrimEnd(s: string): string
  {
    if s != [] && IsTrimmable(s[|s| - 1]) then TrimEnd(s[..|s| - 1]) else s
  }

  /** Trimming the end leaves no trimmable last character. */
  lemma {:induction false} TrimEndLast(s: string)
    ensures TrimEnd(s) != [] ==> !IsTrimmable(TrimEnd(s)[|TrimEnd(s)| - 1])
    decreases |s|
  {
    if s != [] && IsTrimmable(s[|s| - 1]) {
      TrimEndLast(s[..|s| - 1]);
    }
  }

  /** PHP's `trim` with its default character list. */
  function Trim(s: string): string {
    TrimEnd(TrimStart(s))
  }

  /** A string with no trimmable character at either end is its own trim. */
  lemma TrimUntrimmed(s: string)
    requires s != [] ==> !IsTrimmable(s[0]) && !IsTrimmable(s[|s| - 1])
    ensures Trim(s) == s
  {
  }

  /** PHP's `empty` on a string: true for "" and for "0". */
  predicate PhpEmpty(s: string) {
    s == "" || s == "0"
  }
}
