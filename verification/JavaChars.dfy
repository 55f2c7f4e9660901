/**
 * The java.lang.Character and java.lang.String behaviours the parsers rely on:
 * digit values in a radix, the digit character for a value, and the
 * case-insensitive comparison used by String.equalsIgnoreCase.
 * The digit alphabet is the ASCII one: '0'-'9', 'a'-'z' and 'A'-'Z'.
 */
module JavaChars {

  /** Character.MIN_RADIX and Character.MAX_RADIX. */
  const MinRadix: int := 2
  const MaxRadix: int := 36

  /** U+017F LATIN SMALL LETTER LONG S, whose upper case is 'S'. */
  const LongS: char := '\U{017F}'
  /** U+0131 LATIN SMALL LETTER DOTLESS I, whose upper case is 'I'. */
  const DotlessI: char := '\U{0131}'
  /** U+0130 LATIN CAPITAL LETTER I WITH DOT ABOVE, whose lower case is 'i'. */
  const DottedCapitalI: char := '\U{0130}'
  /** U+212A KELVIN SIGN, whose lower case is 'k'. */
  const KelvinSign: char := '\U{212A}'

  predicate IsRadix(radix: int) {
    MinRadix <= radix <= MaxRadix
  }

  predicate IsAsciiLower(c: char) { 'a' <= c <= 'z' }
  predicate IsAsciiUpper(c: char) { 'A' <= c <= 'Z' }

  /**
   * Character.toUpperCase on the characters whose upper case is an ASCII
   * letter; every other character is left as it is.
   */
  function ToUpperCase(c: char): (u: char)
    ensures IsAsciiLower(c) ==> IsAsciiUpper(u) && u as int == c as int - 32
    ensures !IsAsciiLower(c) && c != DotlessI && c != LongS ==> u == c
  {
    if IsAsciiLower(c) then (c as int - 32) as char
    else if c == DotlessI then 'I'
    else if c == LongS then 'S'
    else c
  }

  /**
   * Character.toLowerCase on the characters whose lower case is an ASCII
   * letter; every other character is left as it is.
   */
  function ToLowerCase(c: char): (l: char)
    ensures IsAsciiUpper(c) ==> IsAsciiLower(l) && l as int == c as int + 32
    ensures !IsAsciiUpper(c) && c != DottedCapitalI && c != KelvinSign ==> l == c
  {
    if IsAsciiUpper(c) then (c as int + 32) as char
    else if c == DottedCapitalI then 'i'
    else if c == KelvinSign then 'k'
    else c
  }

  /**
   * Character.digit(c, radix): the value of c as a digit in radix, or -1 when
   * the radix is out of range, c is not a digit, or its value is not below radix.
   */
  function Digit(c: char, radix: int): (d: int)
    ensures -1 <= d
    ensures d >= 0 ==> IsRadix(radix) && d < radix
    ensures !('0' <= c <= '9' || IsAsciiLower(c) || IsAsciiUpper(c)) ==> d == -1
  {
    if !IsRadix(radix) then -1
    else
      var v :=
        if '0' <= c <= '9' then c as int - '0' as int
        else if IsAsciiLower(c) then c as int - 'a' as int + 10
        else if IsAsciiUpper(c) then c as int - 'A' as int + 10
        else -1;
      if v < radix then v else -1
  }

  /**
   * Character.forDigit(d, radix): the lower-case digit character for d, or
   * the null character when d or radix is out of range.
   */
  function ForDigit(d: int, radix: int): (c: char)
    ensures c != '\0' <==> IsRadix(radix) && 0 <= d < radix
    ensures c != '\0' ==> Digit(c, radix) == d && ToLowerCase(c) == c
  {
    if !IsRadix(radix) || d < 0 || d >= radix then '\0'
    else if d < 10 then ('0' as int + d) as char
    else ('a' as int + d - 10) as char
  }

  /** The digit character for a digit's value is that digit written in lower case. */
  lemma ForDigitOfDigit(c: char, radix: int)
    requires Digit(c, radix) >= 0
    ensures ForDigit(Digit(c, radix), radix) == ToLowerCase(c)
    ensures Digit(ToLowerCase(c), radix) == Digit(c, radix)
  {
  }

  /**
   * One step of String.regionMatches with ignoreCase set: its three tests
   * come down to comparing the two characters folded to lower case through
   * upper case.
   */
  predicate CharEqualsIgnoreCase(a: char, b: char): (eq: bool)
    ensures eq <==> ToLowerCase(ToUpperCase(a)) == ToLowerCase(ToUpperCase(b))
  {
    a == b
    || ToUpperCase(a) == ToUpperCase(b)
    || ToLowerCase(ToUpperCase(a)) == ToLowerCase(ToUpperCase(b))
  }

  /** String.equalsIgnoreCase on a non-null argument. */
  predicate EqualsIgnoreCase(a: string, b: string): (eq: bool)
    ensures eq ==> |a| == |b|
    ensures a == b ==> eq
  {
    |a| == |b| && forall i :: 0 <= i < |a| ==> CharEqualsIgnoreCase(a[i], b[i])
  }

  /**
   * Against an ASCII lower-case letter other than 'i' and 'k', a character
   * matches ignoring case exactly when it is that letter, its upper case, or,
   * for 's', the long s.
   */
  lemma CharMatchesLetter(c: char, l: char)
    requires IsAsciiLower(l) && l != 'i' && l != 'k'
    ensures CharEqualsIgnoreCase(c, l) <==> c == l || c == ToUpperCase(l) || (l == 's' && c == LongS)
  {
  }
}
