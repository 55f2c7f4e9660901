/**
 * The OptionalParsers facade: parse text into a number or a boolean, or give
 * an empty result, never an exception.  A Java String is an Option<string>
 * whose None is null.
 */
module OptionalParsers {
  import opened Wrappers
  import opened JavaChars
  import opened JavaNumbers

  /** A Java String reference; None stands for null. */
  type JavaString = Option<string>

  /**
   * Runs a conversion that may signal a NumberFormatException: a value
   * becomes present, the failure becomes empty and is not passed on.
   */
  function ParseAnyNumber<T>(parser: () -> Result<T>): (r: Option<T>)
    ensures r.Some? <==> parser().Ok?
    ensures r.Some? ==> r.value == parser().value
  {
    match parser()
    case Ok(v) => Some(v)
    case FormatError => None
  }

  /** parseLong(String): a decimal literal within the 64-bit signed range, or empty. */
  function ParseLong(s: JavaString): (r: Option<int>)
    ensures r.Some? <==> s.Some? && IsLiteral(s.value, 10) && IsLong(LiteralValue(s.value, 10))
    ensures r.Some? ==> r.value == LiteralValue(s.value, 10) && MinLong <= r.value <= MaxLong
  {
    ParseAnyNumber(() => LongParseLong(s, 10))
  }

  /** parseLong(String, int): a literal in the radix within the 64-bit signed range, or empty. */
  function ParseLongWithRadix(s: JavaString, radix: int): (r: Option<int>)
    ensures r.Some? <==> s.Some? && IsLiteral(s.value, radix) && IsLong(LiteralValue(s.value, radix))
    ensures r.Some? ==> r.value == LiteralValue(s.value, radix) && MinLong <= r.value <= MaxLong
  {
    ParseAnyNumber(() => LongParseLong(s, radix))
  }

  /** parseInt(String): a decimal literal within the 32-bit signed range, or empty. */
  function ParseInt(s: JavaString): (r: Option<int>)
    ensures r.Some? <==> s.Some? && IsLiteral(s.value, 10) && IsInt(LiteralValue(s.value, 10))
    ensures r.Some? ==> r.value == LiteralValue(s.value, 10) && MinInt <= r.value <= MaxInt
  {
    ParseAnyNumber(() => IntegerParseInt(s, 10))
  }

  /** parseInt(String, int): a literal in the radix within the 32-bit signed range, or empty. */
  function ParseIntWithRadix(s: JavaString, radix: int): (r: Option<int>)
    ensures r.Some? <==> s.Some? && IsLiteral(s.value, radix) && IsInt(LiteralValue(s.value, radix))
    ensures r.Some? ==> r.value == LiteralValue(s.value, radix) && MinInt <= r.value <= MaxInt
  {
    ParseAnyNumber(() => IntegerParseInt(s, radix))
  }

  /**
   * parseBigInteger(String): a decimal literal of any size, or empty.  A null
   * argument makes the JDK throw NullPointerException, which is not caught.
   */
  function ParseBigInteger(s: JavaString): (r: Option<int>)
    requires s.Some?
    ensures r.Some? <==> IsLiteral(s.value, 10)
    ensures r.Some? ==> r.value == LiteralValue(s.value, 10)
  {
    ParseAnyNumber(() => ParseSigned(s.value, 10))
  }

  /** parseBigInteger(String, int): a literal in the radix of any size, or empty. */
  function ParseBigIntegerWithRadix(s: JavaString, radix: int): (r: Option<int>)
    requires s.Some?
    ensures r.Some? <==> IsLiteral(s.value, radix)
    ensures r.Some? ==> r.value == LiteralValue(s.value, radix)
  {
    ParseAnyNumber(() => ParseSigned(s.value, radix))
  }

  /**
   * parseBoolean(String): false for "false" and true for "true", ignoring
   * case; empty for null and for any other text.
   */
  function ParseBoolean(s: JavaString): (r: Option<bool>)
    ensures r == Some(false) <==> s.Some? && EqualsIgnoreCase(s.value, "false")
    ensures r == Some(true) <==> s.Some? && EqualsIgnoreCase(s.value, "true")
    ensures r == None <==> s.None? || (!EqualsIgnoreCase(s.value, "false") && !EqualsIgnoreCase(s.value, "true"))
  {
    if s.None? then None
    else if EqualsIgnoreCase(s.value, "false") then Some(false)
    else if EqualsIgnoreCase(s.value, "true") then Some(true)
    else None
  }
}
