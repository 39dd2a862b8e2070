/**
 * ASCII case mapping and the whitespace class used by the two
 * environments. Rust's `to_uppercase`/`to_lowercase` are Unicode-aware; the
 * model maps only the ASCII letters and leaves every other character as it is.
 */
module Ascii {

  predicate IsLowerLetter(c: char) { 'a' <= c <= 'z' }

  predicate IsUpperLetter(c: char) { 'A' <= c <= 'Z' }

  predicate IsLetter(c: char) { IsLowerLetter(c) || IsUpperLetter(c) }

  function ToUpper(c: char): char
  {
    if IsLowerLetter(c) then (c as int - 32) as char else c
  }

  function ToLower(c: char): char
  {
    if IsUpperLetter(c) then (c as int + 32) as char else c
  }

  /** `str::to_uppercase`, restricted to ASCII. */
  function UpperString(s: string): (r: string)
    ensures |r| == |s|
    ensures forall k :: 0 <= k < |s| ==> r[k] == ToUpper(s[k])
  {
    if |s| == 0 then [] else [ToUpper(s[0])] + UpperString(s[1..])
  }

  /** The upper- and lower-case forms of a character coincide exactly when it is not a letter. */
  lemma CaseFormsEqualIffNotLetter(c: char)
    ensures ToUpper(c) == ToLower(c) <==> !IsLetter(c)
  {
  }

  lemma ToUpperIdempotent(c: char)
    ensures ToUpper(ToUpper(c)) == ToUpper(c)
  {
  }

  /** Rust's `char::is_whitespace`: the characters with the Unicode White_Space property. */
  predicate IsWhitespace(c: char)
  {
    ('\U{9}' <= c <= '\U{D}') || c == ' ' || c == '\U{85}' || c == '\U{A0}'
    || c == '\U{1680}' || ('\U{2000}' <= c <= '\U{200A}') || c == '\U{2028}' || c == '\U{2029}'
    || c == '\U{202F}' || c == '\U{205F}' || c == '\U{3000}'
  }

  /** Upper-casing never turns a non-whitespace character into whitespace, or back. */
  lemma ToUpperKeepsWhitespaceClass(c: char)
    ensures IsWhitespace(ToUpper(c)) <==> IsWhitespace(c)
  {
  }
}
