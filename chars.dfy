/**
  Character classes used by the tokenizer: the model of Python's `str.isspace`
  and `str.lower` on the ASCII range. Characters outside ASCII are never
  whitespace here and are left unchanged by lowering.
 */
module Chars {

  /** Whitespace as Python's `str.split()` sees it in ASCII: tab, line feed,
      vertical tab, form feed, carriage return (9-13), the four information
      separators (28-31) and space (32). */
  predicate IsSpace(c: char) {
    var k := c as int;
    (9 <= k <= 13) || (28 <= k <= 32)
  }

  /** The whitespace set, character by character. */
  lemma SpaceCharacters(c: char)
    ensures IsSpace(c) <==>
      c in {'\t', '\n', '\U{0B}', '\U{0C}', '\r', '\U{1C}', '\U{1D}', '\U{1E}', '\U{1F}', ' '}
  {
  }

  predicate IsUpper(c: char) {
    'A' <= c <= 'Z'
  }

  /** `str.lower` on one character. */
  function ToLower(c: char): (d: char)
    ensures !IsUpper(d)
    ensures IsSpace(d) <==> IsSpace(c)
    ensures !IsUpper(c) ==> d == c
    ensures IsUpper(c) ==> 'a' <= d <= 'z' && d as int - 'a' as int == c as int - 'A' as int
  {
    if IsUpper(c) then (c as int + 32) as char else c
  }

  /** A string with no upper-case letter, i.e. one that `str.lower` leaves alone. */
  predicate IsLowercase(s: string) {
    forall i | 0 <= i < |s| :: !IsUpper(s[i])
  }

  /** `str.lower` on a whole string: character by character, length kept. */
  function Lower(s: string): (r: string)
    ensures |r| == |s| && IsLowercase(r)
    ensures forall i | 0 <= i < |s| :: r[i] == ToLower(s[i])
  {
    seq(|s|, i requires 0 <= i < |s| => ToLower(s[i]))
  }
}
