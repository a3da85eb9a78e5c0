/** Character classes of the C library ("C" locale), over the bytes a
    FixedString may hold: ASCII without NUL. */
module Chars {

  /** The terminator of a C string. */
  const NUL: char := '\0'

  /** A byte that may stand inside a NUL-terminated string of this model. */
  predicate IsChar(c: char) {
    0 < c as int < 128
  }

  /** Every byte of `t` may stand inside a C string: `t` is the text before the terminator. */
  predicate IsText(t: seq<char>) {
    forall i :: 0 <= i < |t| ==> IsChar(t[i])
  }

  function Min(a: int, b: int): int { if a < b then a else b }

  function Max(a: int, b: int): int { if a > b then a else b }

  /** isspace: blank, tab, newline, vertical tab, form feed, carriage return. */
  predicate IsSpace(c: char) {
    c == ' ' || 9 <= c as int <= 13
  }

  predicate IsDigit(c: char) {
    '0' <= c <= '9'
  }

  predicate IsLower(c: char) {
    'a' <= c <= 'z'
  }

  predicate IsUpper(c: char) {
    'A' <= c <= 'Z'
  }

  /** toupper: maps a lower-case letter to its capital and leaves every other byte alone. */
  function ToUpper(c: char): (r: char)
    ensures !IsLower(r)
    ensures IsLower(c) ==> IsUpper(r) && r as int - 'A' as int == c as int - 'a' as int
    ensures IsChar(c) <==> IsChar(r)
    ensures !IsLower(c) ==> r == c
  {
    if IsLower(c) then (c as int - 32) as char else c
  }

  /** tolower: maps a capital to its lower-case letter and leaves every other byte alone. */
  function ToLower(c: char): (r: char)
    ensures !IsUpper(r)
    ensures IsUpper(c) ==> IsLower(r) && r as int - 'a' as int == c as int - 'A' as int
    ensures IsChar(c) <==> IsChar(r)
    ensures !IsUpper(c) ==> r == c
  {
    if IsUpper(c) then (c as int + 32) as char else c
  }

  /** toupper and tolower undo each other on letters: a letter keeps its
      place in the alphabet and only changes case. */
  lemma CaseRoundTrip(c: char)
    ensures IsLower(c) ==> ToLower(ToUpper(c)) == c
    ensures IsUpper(c) ==> ToUpper(ToLower(c)) == c
    ensures IsLower(c) || IsUpper(c) ==> ToUpper(c) != ToLower(c)
  {
  }

  /** The text with toupper applied to every byte (toUpperCase, equalsIgnoreCase). */
  function UpperText(t: seq<char>): (r: seq<char>)
    ensures |r| == |t|
    ensures IsText(t) ==> IsText(r)
    ensures forall i :: 0 <= i < |t| ==> r[i] == ToUpper(t[i])
  {
    seq(|t|, i requires 0 <= i < |t| => ToUpper(t[i]))
  }

  /** The text with tolower applied to every byte (toLowerCase). */
  function LowerText(t: seq<char>): (r: seq<char>)
    ensures |r| == |t|
    ensures IsText(t) ==> IsText(r)
    ensures forall i :: 0 <= i < |t| ==> r[i] == ToLower(t[i])
  {
    seq(|t|, i requires 0 <= i < |t| => ToLower(t[i]))
  }

  /** Converting case twice is converting it once, and the result holds no letter of the other case. */
  lemma CaseConversionIdempotent(t: seq<char>)
    ensures UpperText(UpperText(t)) == UpperText(t)
    ensures LowerText(LowerText(t)) == LowerText(t)
    ensures forall i :: 0 <= i < |t| ==> !IsLower(UpperText(t)[i]) && !IsUpper(LowerText(t)[i])
  {
  }

  /** Upper-casing forgets the case: a text and its lower-cased form upper-case alike. */
  lemma UpperOfLower(t: seq<char>)
    ensures UpperText(LowerText(t)) == UpperText(t)
  {
    forall i | 0 <= i < |t|
      ensures ToUpper(ToLower(t[i])) == ToUpper(t[i])
    {
    }
  }
}
