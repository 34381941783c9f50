/**
 * Character classes and string helpers that the Java library gives the system:
 * `String.isBlank`, the regular-expression class `\s`, `String.toUpperCase`
 * and the removal of spaces and hyphens from a telephone number.
 */
module Text {

  /** `Character.isWhitespace`: the ASCII controls 9..13 and 28..31, the space, and the
      Unicode space, line and paragraph separators other than the no-break spaces. */
  predicate IsJavaWhitespace(c: char) {
    c == ' ' || ('\t' <= c <= '\r') || ('\U{1C}' <= c <= '\U{1F}')
    || c == '\U{1680}' || ('\U{2000}' <= c <= '\U{2006}') || ('\U{2008}' <= c <= '\U{200A}')
    || c == '\U{2028}' || c == '\U{2029}' || c == '\U{205F}' || c == '\U{3000}'
  }

  /** `String.isBlank`: empty, or made only of whitespace. */
  predicate IsBlank(s: string) {
    forall i :: 0 <= i < |s| ==> IsJavaWhitespace(s[i])
  }

  /** The regular-expression class `\s`: `[ \t\n\x0B\f\r]`. */
  predicate IsRegexSpace(c: char) {
    c == ' ' || ('\t' <= c <= '\r')
  }

  predicate IsDigit(c: char) {
    '0' <= c <= '9'
  }

  function ToUpper(c: char): char {
    if 'a' <= c <= 'z' then (c as int - 32) as char else c
  }

  /** `String.toUpperCase`, on the ASCII letters. */
  function UpperCase(s: string): (r: string)
    ensures |r| == |s|
    ensures forall i :: 0 <= i < |s| ==> r[i] == ToUpper(s[i]) && !('a' <= r[i] <= 'z')
  {
    seq(|s|, i requires 0 <= i < |s| => ToUpper(s[i]))
  }

  lemma UpperCaseIdempotent(s: string)
    ensures UpperCase(UpperCase(s)) == UpperCase(s)
  {
  }

  /** `replaceAll("[ \\-]", "")`: the string without its spaces and hyphens, order kept. */
  function WithoutSpacesAndHyphens(s: string): (r: string)
    ensures |r| <= |s|
    ensures forall i :: 0 <= i < |r| ==> r[i] != ' ' && r[i] != '-'
    ensures forall c :: c in s && c != ' ' && c != '-' ==> c in r
  {
    if s == [] then []
    else if s[0] == ' ' || s[0] == '-' then WithoutSpacesAndHyphens(s[1..])
    else [s[0]] + WithoutSpacesAndHyphens(s[1..])
  }

  /** Removing spaces and hyphens keeps every other character, in order. */
  lemma {:induction false} WithoutSpacesAndHyphensKeepsOthers(s: string)
    requires forall i :: 0 <= i < |s| ==> s[i] != ' ' && s[i] != '-'
    ensures WithoutSpacesAndHyphens(s) == s
  {
    if s != [] {
      WithoutSpacesAndHyphensKeepsOthers(s[1..]);
    }
  }
}
