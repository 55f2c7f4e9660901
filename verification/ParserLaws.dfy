/**
 * What the OptionalParsers facade promises across calls: reading back what
 * Java prints, the ranges of the fixed-width parsers, the cases that give an
 * empty result, and the boolean whitelist.
 */
module ParserLaws {
  import opened Wrappers
  import opened JavaChars
  import opened JavaNumbers
  import opened OptionalParsers

  // ---------------------------------------------------------------- numbers

  /**
   * parseLong(Long.toString(n, radix), radix) gives n back for every n in the
   * 64-bit range and is empty for every n outside it.
   */
  lemma LongRoundTrip(n: int, radix: int)
    requires IsRadix(radix)
    ensures ParseLongWithRadix(Some(ToString(n, radix)), radix) == if IsLong(n) then Some(n) else None
  {
    ParseSignedToString(n, radix);
  }

  /** parseLong(Long.toString(n)) gives n back exactly when n is a 64-bit value. */
  lemma DecimalLongRoundTrip(n: int)
    ensures ParseLong(Some(ToString(n, 10))) == if IsLong(n) then Some(n) else None
  {
    LongRoundTrip(n, 10);
  }

  /**
   * parseInt(Integer.toString(n, radix), radix) gives n back for every n in
   * the 32-bit range and is empty for every n outside it.
   */
  lemma IntRoundTrip(n: int, radix: int)
    requires IsRadix(radix)
    ensures ParseIntWithRadix(Some(ToString(n, radix)), radix) == if IsInt(n) then Some(n) else None
  {
    ParseSignedToString(n, radix);
  }

  /** parseInt(Integer.toString(n)) gives n back exactly when n is a 32-bit value. */
  lemma DecimalIntRoundTrip(n: int)
    ensures ParseInt(Some(ToString(n, 10))) == if IsInt(n) then Some(n) else None
  {
    IntRoundTrip(n, 10);
  }

  /** parseBigInteger(n.toString(radix), radix) gives n back for every integer n. */
  lemma BigIntegerRoundTrip(n: int, radix: int)
    requires IsRadix(radix)
    ensures ParseBigIntegerWithRadix(Some(ToString(n, radix)), radix) == Some(n)
    ensures ParseBigInteger(Some(ToString(n, 10))) == Some(n)
  {
    ParseSignedToString(n, radix);
    ParseSignedToString(n, 10);
  }

  /**
   * A present value prints back as the canonical form of the text it was
   * read from: no '+', no leading zeros, lower-case digits.
   */
  lemma PresentValuePrintsCanonical(s: string, radix: int)
    ensures ParseBigIntegerWithRadix(Some(s), radix).Some? ==>
              ToString(ParseBigIntegerWithRadix(Some(s), radix).value, radix) == Canonical(s, radix)
    ensures ParseLongWithRadix(Some(s), radix).Some? ==>
              ToString(ParseLongWithRadix(Some(s), radix).value, radix) == Canonical(s, radix)
    ensures ParseIntWithRadix(Some(s), radix).Some? ==>
              ToString(ParseIntWithRadix(Some(s), radix).value, radix) == Canonical(s, radix)
  {
    if IsLiteral(s, radix) {
      ToStringOfLiteral(s, radix);
    }
  }

  /**
   * The fixed-width parsers are the arbitrary-precision one cut down to their
   * range: the same value where it fits, empty where it does not.
   */
  lemma FixedWidthIsBigIntegerInRange(s: string, radix: int)
    ensures ParseLongWithRadix(Some(s), radix) ==
              (var b := ParseBigIntegerWithRadix(Some(s), radix); if b.Some? && IsLong(b.value) then b else None)
    ensures ParseIntWithRadix(Some(s), radix) ==
              (var b := ParseBigIntegerWithRadix(Some(s), radix); if b.Some? && IsInt(b.value) then b else None)
    ensures ParseIntWithRadix(Some(s), radix).Some? ==> ParseLongWithRadix(Some(s), radix) == ParseIntWithRadix(Some(s), radix)
  {
  }

  /** Any of the format failures gives empty from every integer parser. */
  lemma MalformedIsEmpty(t: string, radix: int)
    requires Malformed(t, radix)
    ensures ParseIntWithRadix(Some(t), radix) == None
    ensures ParseLongWithRadix(Some(t), radix) == None
    ensures ParseBigIntegerWithRadix(Some(t), radix) == None
  {
    FormatFailures(t, radix);
  }

  /** The example values of the tests, read back in decimal and in octal. */
  lemma TestRoundTrips()
    ensures forall n | n in {0, 1, -1, 8, -8, MaxLong, MinLong} ::
              ParseLong(Some(ToString(n, 10))) == Some(n) && ParseLongWithRadix(Some(ToString(n, 8)), 8) == Some(n)
    ensures forall n | n in {0, 1, -1, 8, -8, MaxInt, MinInt} ::
              ParseInt(Some(ToString(n, 10))) == Some(n) && ParseIntWithRadix(Some(ToString(n, 8)), 8) == Some(n)
  {
    forall n | n in {0, 1, -1, 8, -8, MaxLong, MinLong}
      ensures ParseLong(Some(ToString(n, 10))) == Some(n) && ParseLongWithRadix(Some(ToString(n, 8)), 8) == Some(n)
    {
      LongRoundTrip(n, 10);
      LongRoundTrip(n, 8);
    }
    forall n | n in {0, 1, -1, 8, -8, MaxInt, MinInt}
      ensures ParseInt(Some(ToString(n, 10))) == Some(n) && ParseIntWithRadix(Some(ToString(n, 8)), 8) == Some(n)
    {
      IntRoundTrip(n, 10);
      IntRoundTrip(n, 8);
    }
  }

  /**
   * One past the largest 64-bit value is empty for parseLong, and the 41-digit
   * decimal value of the tests, beyond the 64-bit range, is read exactly by
   * parseBigInteger; so is the octal value of the tests.
   */
  lemma TestBeyondLong()
    ensures ParseLong(Some(ToString(MaxLong + 1, 10))) == None
    ensures ParseInt(Some(ToString(MaxInt + 1, 10))) == None
    ensures var n := 12342349450760456546756765756756756495687;
            ParseLong(Some(ToString(n, 10))) == None && ParseBigInteger(Some(ToString(n, 10))) == Some(n)
    ensures var n := 5795954118555916093053356;
            ParseBigIntegerWithRadix(Some(ToString(n, 8)), 8) == Some(n)
  {
    DecimalLongRoundTrip(MaxLong + 1);
    DecimalIntRoundTrip(MaxInt + 1);
    DecimalLongRoundTrip(12342349450760456546756765756756756495687);
    BigIntegerRoundTrip(12342349450760456546756765756756756495687, 8);
    BigIntegerRoundTrip(5795954118555916093053356, 8);
  }

  /**
   * The tests' own 41-digit decimal text, beyond the 64-bit range, is present
   * for parseBigInteger with the value new BigInteger gives for the same text.
   */
  lemma TestBigIntegerText()
    ensures var s := "12342349450760456546756765756756756495687";
            IsLiteral(s, 10) && ParseBigInteger(Some(s)) == Some(LiteralValue(s, 10))
  {
    var s := "12342349450760456546756765756756756495687";
    assert forall i :: 0 <= i < |s| ==> '0' <= s[i] <= '9';
    UnsignedDigitsArePresent(s, 10);
  }

  /**
   * The tests' own octal text is present for parseBigInteger in radix 8, with
   * the value new BigInteger gives for the same text and radix.
   */
  lemma TestBigIntegerRadixText()
    ensures var s := "2313256465465431321321654654";
            IsLiteral(s, 8) && ParseBigIntegerWithRadix(Some(s), 8) == Some(LiteralValue(s, 8))
  {
    var s := "2313256465465431321321654654";
    assert forall i :: 0 <= i < |s| ==> '0' <= s[i] <= '7';
    UnsignedDigitsArePresent(s, 8);
  }

  /**
   * The tests' 41-digit decimal text lies beyond the 64-bit range, so
   * parseLong of that very text is empty: a leading digit other than zero
   * makes it worth at least ten to the fortieth.
   */
  lemma TestLongText()
    ensures ParseLong(Some("12342349450760456546756765756756756495687")) == None
  {
    var s := "12342349450760456546756765756756756495687";
    assert forall i :: 0 <= i < |s| ==> '0' <= s[i] <= '9';
    DecimalDigitsBeyondLong(s);
  }

  /**
   * Twenty or more decimal digits, without a sign and with a leading digit
   * other than zero, are beyond the 64-bit range, so parseLong is empty.
   */
  lemma DecimalDigitsBeyondLong(s: string)
    requires |s| >= 20 && IsDigits(s, 10) && s[0] != '0'
    ensures ParseLong(Some(s)) == None
  {
    assert Magnitude(s) == s && !IsNegative(s);
    DigitsLowerBound(s, 10);
    PowMono(10, 19, |s| - 1);
    TenToNineteen();
  }

  /** Ten to the nineteenth exceeds the largest 64-bit value. */
  lemma TenToNineteen()
    ensures Pow(10, 19) > MaxLong
  {
    assert Pow(10, 4) == 10000;
    assert Pow(10, 9) == 1000000000 by {
      assert Pow(10, 5) == 100000;
    }
    assert Pow(10, 14) == 100000000000000;
    assert Pow(10, 19) == 10000000000000000000;
  }

  /** A non-empty run of digits, without a sign, is present with its value. */
  lemma UnsignedDigitsArePresent(s: string, radix: int)
    requires IsRadix(radix) && s != [] && IsDigits(s, radix)
    ensures ParseBigIntegerWithRadix(Some(s), radix) == Some(LiteralValue(s, radix))
    ensures radix == 10 ==> ParseBigInteger(Some(s)) == Some(LiteralValue(s, 10))
  {
  }

  /** The non-numeric texts of the tests give empty. */
  lemma TestInvalidNumbers()
    ensures ParseLong(Some("aInvalidLongString")) == None
    ensures ParseInt(Some("aInvalidIntegerString")) == None
    ensures ParseLong(None) == None && ParseInt(None) == None
  {
    assert Digit("aInvalidLongString"[0], 10) < 0;
    MalformedIsEmpty("aInvalidLongString", 10);
    assert Digit("aInvalidIntegerString"[0], 10) < 0;
    MalformedIsEmpty("aInvalidIntegerString", 10);
  }

  /** The non-numeric BigInteger text of the tests gives empty. */
  lemma TestInvalidBigInteger()
    ensures ParseBigInteger(Some("aInvalidBigIntegerString")) == None
  {
    assert Digit("aInvalidBigIntegerString"[0], 10) < 0;
    MalformedIsEmpty("aInvalidBigIntegerString", 10);
  }

  // ---------------------------------------------------------------- booleans

  /** s spells w letter by letter in either case, where a long s may stand for 's'. */
  predicate SpellsIgnoringCase(s: string, w: string) {
    |s| == |w| && forall i :: 0 <= i < |s| ==> s[i] == w[i] || s[i] == ToUpperCase(w[i]) || (w[i] == 's' && s[i] == LongS)
  }

  /** For a lower-case ASCII word without 'i' and 'k', equalsIgnoreCase is spelling it in either case. */
  lemma EqualsIgnoreCaseWord(s: string, w: string)
    requires forall i :: 0 <= i < |w| ==> IsAsciiLower(w[i]) && w[i] != 'i' && w[i] != 'k'
    ensures EqualsIgnoreCase(s, w) <==> SpellsIgnoringCase(s, w)
  {
    forall i | 0 <= i < |s| && |s| == |w| {
      CharMatchesLetter(s[i], w[i]);
    }
  }

  /** parseBoolean gives false exactly for "false" written in any mix of cases. */
  lemma ParseBooleanFalse(s: string)
    ensures ParseBoolean(Some(s)) == Some(false) <==>
              |s| == 5 && forall i :: 0 <= i < 5 ==> s[i] == "false"[i] || s[i] == "FALSE"[i] || (i == 3 && s[i] == LongS)
  {
    EqualsIgnoreCaseWord(s, "false");
  }

  /** parseBoolean gives true exactly for "true" written in any mix of cases. */
  lemma ParseBooleanTrue(s: string)
    ensures ParseBoolean(Some(s)) == Some(true) <==>
              |s| == 4 && forall i :: 0 <= i < 4 ==> s[i] == "true"[i] || s[i] == "TRUE"[i]
  {
    EqualsIgnoreCaseWord(s, "true");
  }

  /** parseBoolean is empty for null and for every text that spells neither word. */
  lemma ParseBooleanEmpty(s: JavaString)
    ensures ParseBoolean(s) == None <==>
              s.None? || (!SpellsIgnoringCase(s.value, "false") && !SpellsIgnoringCase(s.value, "true"))
  {
    if s.Some? {
      EqualsIgnoreCaseWord(s.value, "false");
      EqualsIgnoreCaseWord(s.value, "true");
    }
  }

  /** The boolean examples of the tests, the empty string, and a long s standing for 's'. */
  lemma TestBooleans()
    ensures ParseBoolean(Some("true")) == Some(true) && ParseBoolean(Some("tRuE")) == Some(true)
    ensures ParseBoolean(Some("false")) == Some(false) && ParseBoolean(Some("FaLSe")) == Some(false)
    ensures ParseBoolean(Some("invalidBooleanString")) == None && ParseBoolean(None) == None
    ensures ParseBoolean(Some("")) == None
    ensures ParseBoolean(Some("fal\U{017F}e")) == Some(false)
  {
    ParseBooleanTrue("tRuE");
    ParseBooleanFalse("FaLSe");
    ParseBooleanFalse("fal\U{017F}e");
  }
}
