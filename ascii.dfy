/**
 * Character classes of the C library in the "C" locale (`isalnum`, `isdigit`,
 * `isspace`, `toupper`), shared by the vocabulary generator and the
 * BiblioSpec string helpers. Only the 7-bit ASCII range has a class; every
 * other character is in none of them and is left alone by `toupper`.
 * C strings end at their first NUL.
 */
module Ascii {

  predicate IsDigit(c: char) {
    '0' <= c <= '9'
  }

  predicate IsLower(c: char) {
    'a' <= c <= 'z'
  }

  predicate IsUpper(c: char) {
    'A' <= c <= 'Z'
  }

  /** `isalnum`: a decimal digit or a letter of either case. */
  predicate IsAlnum(c: char) {
    IsDigit(c) || IsLower(c) || IsUpper(c)
  }

  /** `isspace`: space, tab, line feed, vertical tab, form feed, carriage return. */
  predicate IsSpace(c: char) {
    c == ' ' || c == '\t' || c == '\n' || c == '\r' || c as int == 11 || c as int == 12
  }

  /** `toupper`: maps a lower-case letter to its upper-case partner, anything else to itself. */
  function ToUpper(c: char): (r: char)
    ensures IsLower(c) ==> IsUpper(r) && r as int + 32 == c as int
    ensures !IsLower(c) ==> r == c
    ensures !IsLower(r)
  {
    if IsLower(c) then (c as int - 32) as char else c
  }

  /** The string with `toupper` applied to every character. */
  function UpperString(s: string): (r: string)
    ensures |r| == |s|
    ensures forall i :: 0 <= i < |s| ==> r[i] == ToUpper(s[i])
  {
    if s == [] then [] else [ToUpper(s[0])] + UpperString(s[1..])
  }

  /** Upper-casing twice is upper-casing once, and leaves no lower-case letter. */
  lemma UpperStringIdempotent(s: string)
    ensures UpperString(UpperString(s)) == UpperString(s)
    ensures forall i :: 0 <= i < |s| ==> !IsLower(UpperString(s)[i])
  {
  }

  /** A C string: its characters up to, and not including, the terminating NUL. */
  type CString = s: string | '\0' !in s

  /**
   * The C string a `const char*` into `s` designates, as `s.c_str()` or a
   * `char` array holding `s` gives it: the characters before the first NUL.
   */
  function UpToNul(s: string): (r: CString)
    ensures |r| <= |s| && r == s[..|r|]
    ensures |r| < |s| ==> s[|r|] == '\0'
    ensures '\0' !in s ==> r == s
  {
    if s == [] || s[0] == '\0' then [] else [s[0]] + UpToNul(s[1..])
  }

  /** A NUL ends the C string: nothing after it is part of it. */
  lemma {:induction false} UpToNulAppendNul(a: string, b: string)
    ensures UpToNul(a + ['\0'] + b) == UpToNul(a)
    decreases |a|
  {
    if a == [] {
      assert (a + ['\0'] + b)[0] == '\0';
    } else {
      assert (a + ['\0'] + b)[1..] == a[1..] + ['\0'] + b;
      UpToNulAppendNul(a[1..], b);
    }
  }

  predicate NoSpace(s: string) {
    forall i :: 0 <= i < |s| ==> !IsSpace(s[i])
  }

  predicate AllSpace(s: string) {
    forall i :: 0 <= i < |s| ==> IsSpace(s[i])
  }

  /** Length of the run of blanks at the start of `s` (what the greedy `\s*` consumes). */
  function SpaceRun(s: string): (n: nat)
    ensures n <= |s| && AllSpace(s[..n])
    ensures n < |s| ==> !IsSpace(s[n])
  {
    if s == [] || !IsSpace(s[0]) then 0
    else
      var n := 1 + SpaceRun(s[1..]);
      assert s[..n] == [s[0]] + s[1..][..n - 1];
      n
  }

  /** The run of non-blank characters at the start of `s` (what the greedy `\S+` captures). */
  function NonSpaceRun(s: string): (r: string)
    ensures |r| <= |s| && r == s[..|r|] && NoSpace(r)
    ensures |r| < |s| ==> IsSpace(s[|r|])
  {
    if s == [] || IsSpace(s[0]) then []
    else
      var r := [s[0]] + NonSpaceRun(s[1..]);
      assert s[..|r|] == [s[0]] + s[1..][..|r| - 1];
      r
  }
}
