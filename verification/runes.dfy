/** The code-point classifier and the masked rune comparator.

    Go's `unicode.IsLetter` and `unicode.IsNumber` consult the full Unicode
    category tables; here they are exact on Latin-1 (U+0000..U+00FF) and treat
    every code point above it as neither a letter nor a number. */
module Runes {

  /** The runes treated like digits: percent, x, feminine ordinal, degree sign,
      masculine ordinal. */
  const NumericalInfo: seq<char> := ['%', 'x', '\U{00AA}', '\U{00B0}', '\U{00BA}']

  /** Unicode category L, restricted to Latin-1. */
  predicate IsLetter(c: char) {
    || ('a' <= c <= 'z')
    || ('A' <= c <= 'Z')
    || c == '\U{00AA}' || c == '\U{00B5}' || c == '\U{00BA}'
    || ('\U{00C0}' <= c <= '\U{00FF}' && c != '\U{00D7}' && c != '\U{00F7}')
  }

  /** Unicode category N, restricted to Latin-1. */
  predicate IsNumber(c: char) {
    || ('0' <= c <= '9')
    || c == '\U{00B2}' || c == '\U{00B3}' || c == '\U{00B9}'
    || ('\U{00BC}' <= c <= '\U{00BE}')
  }

  predicate IsNumericalInfo(c: char) {
    c in NumericalInfo
  }

  /** A rune that must be matched verbatim wherever it is the reference. */
  predicate IsNumeric(c: char) {
    IsNumber(c) || IsNumericalInfo(c)
  }

  /** Neither a letter, a number nor numerical info: punctuation and the like. */
  predicate IsSpecial(c: char) {
    !IsNumber(c) && !IsLetter(c) && !IsNumericalInfo(c)
  }

  /** Whether `a`, possibly masked, can stand for the reference rune `b`.
      The relation is not symmetric: a special rune stands for anything that is
      not numeric, but letters and numbers only stand for themselves. */
  function CompareRune(a: char, b: char): (r: bool)
    ensures r <==> a == b || (IsSpecial(a) && !IsNumeric(b))
    ensures IsNumeric(a) ==> (r <==> a == b)
  {
    if IsNumber(a) || IsNumericalInfo(a) then a == b
    else if IsLetter(a) && IsLetter(b) then a == b
    else if IsNumber(b) || IsNumericalInfo(b) then false
    else if IsLetter(a) && !IsLetter(b) then false
    else true
  }

  /** Every rune stands for itself. */
  lemma CompareRuneReflexive(c: char)
    ensures CompareRune(c, c)
  {
  }

  /** The comparator is not symmetric: '.' stands for 'a', but 'i' does not
      stand for '!'. */
  lemma CompareRuneAsymmetric()
    ensures exists a: char, b: char :: CompareRune(a, b) && !CompareRune(b, a)
    ensures CompareRune('.', 'a') && !CompareRune('a', '.')
    ensures !CompareRune('i', '!') && CompareRune('!', '@')
  {
    assert CompareRune('.', 'a') && !CompareRune('a', '.');
  }

  /** The overlapping categories: 'x' and the ordinals are letters that are
      also numerical info, so they must be matched verbatim. */
  lemma OverlappingCategories()
    ensures IsLetter('x') && IsNumericalInfo('x')
    ensures IsLetter('\U{00AA}') && IsNumericalInfo('\U{00AA}')
    ensures IsLetter('\U{00BA}') && IsNumericalInfo('\U{00BA}')
    ensures IsSpecial('.') && !IsLetter('%') && !IsNumber('%') && !IsLetter('\U{00B0}') && !IsNumber('\U{00B0}')
    ensures !CompareRune('1', 'x') && !CompareRune('x', 'y') && !CompareRune('.', '1')
  {
  }
}
