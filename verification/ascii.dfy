/**
 * Character classification and case mapping of <ctype.h> in the "C" locale:
 * only the ASCII letters are alphabetic, and only they change case.
 */
module Ascii {

  predicate IsLower(c: char) { 'a' <= c <= 'z' }

  predicate IsUpper(c: char) { 'A' <= c <= 'Z' }

  predicate IsAlpha(c: char) { IsLower(c) || IsUpper(c) }

  predicate IsDigit(c: char) { '0' <= c <= '9' }

  /** A string of lowercase letters only. */
  predicate IsLowerWord(s: string) { forall i :: 0 <= i < |s| ==> IsLower(s[i]) }

  /** Printable ASCII characters that are neither letters, digits nor space. */
  predicate IsPunct(c: char)
  {
    ('!' <= c <= '/') || (':' <= c <= '@') || ('[' <= c <= '`') || ('{' <= c <= '~')
  }

  function ToLower(c: char): (r: char)
    ensures IsAlpha(c) ==> IsLower(r)
    ensures !IsUpper(c) ==> r == c
  {
    if IsUpper(c) then (c as int + 32) as char else c
  }

  function ToUpper(c: char): (r: char)
    ensures IsAlpha(c) ==> IsUpper(r)
    ensures !IsLower(c) ==> r == c
  {
    if IsLower(c) then (c as int - 32) as char else c
  }

  function ToLowerStr(s: string): (r: string)
    ensures |r| == |s|
    ensures forall i :: 0 <= i < |s| ==> r[i] == ToLower(s[i])
  {
    seq(|s|, i requires 0 <= i < |s| => ToLower(s[i]))
  }

  function ToUpperStr(s: string): (r: string)
    ensures |r| == |s|
    ensures forall i :: 0 <= i < |s| ==> r[i] == ToUpper(s[i])
  {
    seq(|s|, i requires 0 <= i < |s| => ToUpper(s[i]))
  }

  /** Upper-casing a lowercase letter and lower-casing it again gives the letter back. */
  lemma LowerOfUpper(c: char)
    requires IsLower(c)
    ensures ToLower(ToUpper(c)) == c
  {
  }
}
