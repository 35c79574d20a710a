/**
 * ASCII character classes as the library's regular expressions use them,
 * and ASCII case mapping (toLowerCase / toUpperCase restricted to ASCII).
 */
module Chars {

  predicate IsAscii(c: char) { c as int < 128 }

  predicate AsciiString(s: string) { forall i :: 0 <= i < |s| ==> IsAscii(s[i]) }

  predicate IsDigit(c: char) { '0' <= c <= '9' }

  predicate IsUpper(c: char) { 'A' <= c <= 'Z' }

  predicate IsLower(c: char) { 'a' <= c <= 'z' }

  predicate IsAlpha(c: char) { IsUpper(c) || IsLower(c) }

  /** `[a-zA-Z0-9]` */
  predicate IsAlnum(c: char) { IsAlpha(c) || IsDigit(c) }

  /** `\w`: `[A-Za-z0-9_]` */
  predicate IsWordChar(c: char) { IsAlnum(c) || c == '_' }

  /** `\s` restricted to ASCII: space, tab, line feed, vertical tab, form feed, carriage return. */
  predicate IsSpace(c: char) {
    c == ' ' || c == '\t' || c == '\n' || c == '\U{000B}' || c == '\U{000C}' || c == '\r'
  }

  /** The line terminators of ECMAScript regular expressions (what `.` does not match). */
  predicate IsLineTerminator(c: char) {
    c == '\n' || c == '\r' || c == '\U{2028}' || c == '\U{2029}'
  }

  /** `\s` in full: the ECMAScript white space and line terminator characters. */
  predicate IsRegExpSpace(c: char) {
    IsSpace(c) || c == '\U{00A0}' || c == '\U{1680}' || ('\U{2000}' <= c <= '\U{200A}') ||
    c == '\U{2028}' || c == '\U{2029}' || c == '\U{202F}' || c == '\U{205F}' ||
    c == '\U{3000}' || c == '\U{FEFF}'
  }

  /** `[0-9a-fA-F]` */
  predicate IsHexDigit(c: char) { IsDigit(c) || 'a' <= c <= 'f' || 'A' <= c <= 'F' }

  function Lower(c: char): (r: char)
    ensures IsUpper(c) ==> IsLower(r) && r as int == c as int + 32
    ensures !IsUpper(c) ==> r == c
    ensures IsAscii(c) ==> IsAscii(r) && !IsUpper(r)
  {
    if IsUpper(c) then (c as int + 32) as char else c
  }

  function Upper(c: char): (r: char)
    ensures IsLower(c) ==> IsUpper(r) && r as int == c as int - 32
    ensures !IsLower(c) ==> r == c
    ensures IsAscii(c) ==> IsAscii(r) && !IsLower(r)
  {
    if IsLower(c) then (c as int - 32) as char else c
  }

  function LowerStr(s: string): (r: string)
    ensures |r| == |s| && forall i :: 0 <= i < |s| ==> r[i] == Lower(s[i])
  {
    seq(|s|, i requires 0 <= i < |s| => Lower(s[i]))
  }

  function UpperStr(s: string): (r: string)
    ensures |r| == |s| && forall i :: 0 <= i < |s| ==> r[i] == Upper(s[i])
  {
    seq(|s|, i requires 0 <= i < |s| => Upper(s[i]))
  }

  /** Case mapping does not change which characters are letters, digits or word characters. */
  lemma LowerKeepsClasses(c: char)
    ensures IsAlnum(Lower(c)) == IsAlnum(c)
    ensures IsWordChar(Lower(c)) == IsWordChar(c)
    ensures IsSpace(Lower(c)) == IsSpace(c)
    ensures IsLineTerminator(Lower(c)) == IsLineTerminator(c)
    ensures IsRegExpSpace(Lower(c)) == IsRegExpSpace(c)
  {
  }

  lemma LowerUpper(c: char)
    ensures IsUpper(c) ==> Upper(Lower(c)) == c
    ensures IsLower(c) ==> Lower(Upper(c)) == c
  {
  }
}
