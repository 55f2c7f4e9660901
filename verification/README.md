# optional-parsers in Dafny

A model of `OptionalParsers`, a small Java utility that parses text into a
`long`, an `int`, a `BigInteger` or a `boolean` and returns an empty
`Optional` instead of throwing when the text cannot be parsed. Every parser is
a pure function, so the model is written as Dafny functions and lemmas:

- `Wrappers`: `Option` (Java's `Optional`) and `Result`, the outcome of a
  conversion that either yields a value or signals a `NumberFormatException`.
- `JavaChars`: the `java.lang.Character` and `String` behaviours the parsers
  rely on: `Character.digit`, `Character.forDigit`, the case mappings, and
  `String.equalsIgnoreCase`.
- `JavaNumbers`: the JDK conversions the facade delegates to.
  `Integer.parseInt`, `Long.parseLong` and `new BigInteger(s, radix)` all
  accept the same grammar: a radix in [2, 36], an optional single leading `+`
  or `-`, and one or more digits valid in the radix, letters in either case.
  The two fixed-width readers also reject values outside the 32-bit or 64-bit
  signed range. `Long.toString(n, radix)` is modelled as `ToString`. Values
  are mathematical integers; the range checks are explicit. `Malformed` lists
  the documented format failures, and `FormatFailures` proves that the grammar
  rejects exactly those. The module also proves that printing a parsed value
  gives the literal's canonical text.
- `OptionalParsers`: the facade. `ParseAnyNumber` takes a conversion
  `() -> Result<T>` (the `ThrowableSupplier` of the source) and maps a format
  failure to `None`. Each Java overload has its own function:
  `ParseLong`/`ParseLongWithRadix`, `ParseInt`/`ParseIntWithRadix`,
  `ParseBigInteger`/`ParseBigIntegerWithRadix` and `ParseBoolean`. A Java
  `String` is an `Option<string>` whose `None` is `null`.
- `ParserLaws`: the laws the facade keeps. These cover reading back what
  `toString` writes (decimal and any radix, including `MIN_VALUE` and
  `MAX_VALUE`), empty results on overflow, the fixed-width parsers as range
  restrictions of the `BigInteger` parser, an empty result for every format
  failure, the boolean whitelist, and the examples from the tests.

`new BigInteger(null)` throws `NullPointerException`, and `parseAnyNumber`
catches only `NumberFormatException`, so that exception escapes. The model
gives the `BigInteger` parsers a non-null precondition.

## Model

| member | source | states |
|---|---|---|
| `OptionalParsers.ParseAnyNumber` | src/main/java/com/github/spjoe/optional/OptionalParsers.java:62-68 | present exactly when the conversion yields a value, and then holds that value; a format failure becomes empty |
| `OptionalParsers.ParseLong` | src/main/java/com/github/spjoe/optional/OptionalParsers.java:14-16 | present exactly for non-null well-formed decimal literals whose value fits 64 bits; the value is the literal's own, in [-2^63, 2^63-1] |
| `OptionalParsers.ParseLongWithRadix` | src/main/java/com/github/spjoe/optional/OptionalParsers.java:18-20 | the same in the given radix; empty for a radix outside [2, 36] |
| `OptionalParsers.ParseInt` | src/main/java/com/github/spjoe/optional/OptionalParsers.java:22-24 | present exactly for non-null well-formed decimal literals whose value fits 32 bits; the value is the literal's own, in [-2^31, 2^31-1] |
| `OptionalParsers.ParseIntWithRadix` | src/main/java/com/github/spjoe/optional/OptionalParsers.java:26-28 | the same in the given radix |
| `OptionalParsers.ParseBigInteger` | src/main/java/com/github/spjoe/optional/OptionalParsers.java:42-44 | for non-null text, present exactly for well-formed decimal literals, with their exact value |
| `OptionalParsers.ParseBigIntegerWithRadix` | src/main/java/com/github/spjoe/optional/OptionalParsers.java:46-48 | the same in the given radix |
| `OptionalParsers.ParseBoolean` | src/main/java/com/github/spjoe/optional/OptionalParsers.java:50-60 | false exactly when the text equals "false" ignoring case, true exactly when it equals "true" ignoring case, empty for null and everything else |
| `JavaNumbers.ParseSigned` | src/main/java/com/github/spjoe/optional/OptionalParsers.java:46-48 | the BigInteger conversion fails exactly on the documented format failures (bad radix, "", a lone sign, a non-digit other than a leading sign); on success the value prints back as the literal's canonical text |
| `JavaNumbers.IntegerParseInt` | src/main/java/com/github/spjoe/optional/OptionalParsers.java:26-28 | Integer.parseInt fails exactly on null, on the documented format failures, and on a value outside the 32-bit range; otherwise it gives the BigInteger reading's value |
| `JavaNumbers.LongParseLong` | src/main/java/com/github/spjoe/optional/OptionalParsers.java:18-20 | Long.parseLong fails exactly on null, on the documented format failures, and on a value outside the 64-bit range; otherwise it gives the BigInteger reading's value |
| `JavaNumbers.ToDigits` | src/test/java/com/github/spjoe/optional/OptionalParsersTest.java:99 | the digits toString writes are non-empty, valid in the radix, lower case, without a leading zero except for zero, and denote the number written |
| `JavaNumbers.ParseSignedToString` | src/test/java/com/github/spjoe/optional/OptionalParsersTest.java:96-101 | reading toString(n, radix) in that radix gives n back, for every integer n |
| `JavaNumbers.ToStringOfLiteral` | src/main/java/com/github/spjoe/optional/OptionalParsers.java:42-48 | printing the value of a well-formed literal gives its canonical text: no '+', no leading zeros, lower-case digits, no "-0" |
| `JavaNumbers.SameValueIffSameCanonical` | src/main/java/com/github/spjoe/optional/OptionalParsers.java:42-48 | two literals denote the same number exactly when their canonical texts are equal |
| `JavaNumbers.StripZerosValue` | src/main/java/com/github/spjoe/optional/OptionalParsers.java:42-48 | leading zeros do not change a literal's value |
| `JavaNumbers.LoweredValue` | src/main/java/com/github/spjoe/optional/OptionalParsers.java:42-48 | letter digits denote the same value in either case |
| `JavaNumbers.ToDigitsOfValue` | src/main/java/com/github/spjoe/optional/OptionalParsers.java:42-48 | a digit string without leading zeros is printed back as itself in lower case |
| `JavaNumbers.ToDigitsAppend` | src/test/java/com/github/spjoe/optional/OptionalParsersTest.java:99 | toString writes a positive value followed by one more digit as its own digits with that digit appended |
| `JavaNumbers.IsLiteral` | src/main/java/com/github/spjoe/optional/OptionalParsers.java:42-48 | a well-formed literal has a valid radix, is neither "" nor a lone sign, and every character after the first is a digit in the radix |
| `JavaNumbers.LiteralValue` | src/main/java/com/github/spjoe/optional/OptionalParsers.java:42-48 | the value of a literal is at most zero when it starts with "-" and at least zero otherwise |
| `JavaNumbers.ToString` | src/test/java/com/github/spjoe/optional/OptionalParsersTest.java:88-101 | toString starts with "-" exactly for a negative number, is "0" exactly for zero, and otherwise is digits of the radix (ten for a bad radix) whose value is the magnitude |
| `JavaChars.ForDigit` | src/test/java/com/github/spjoe/optional/OptionalParsersTest.java:99 | forDigit gives a non-null character exactly for a digit value below a valid radix, and that character reads back as the same digit, in lower case |
| `JavaChars.Digit` | src/main/java/com/github/spjoe/optional/OptionalParsers.java:18-28 | Character.digit gives -1 or a value below a valid radix, and -1 for every character that is not an ASCII letter or digit |
| `JavaChars.ForDigitOfDigit` | src/main/java/com/github/spjoe/optional/OptionalParsers.java:18-20 | a digit character's value maps back to that character in lower case, and reading the lower-case form gives the same digit |
| `JavaChars.ToUpperCase` | src/main/java/com/github/spjoe/optional/OptionalParsers.java:53-56 | Character.toUpperCase maps an ASCII lower-case letter to its upper case (32 code points down) and leaves every character other than a lower-case letter, dotless i and long s unchanged |
| `JavaChars.ToLowerCase` | src/main/java/com/github/spjoe/optional/OptionalParsers.java:53-56 | Character.toLowerCase maps an ASCII upper-case letter to its lower case (32 code points up) and leaves every character other than an upper-case letter, dotted capital I and the Kelvin sign unchanged |
| `JavaChars.CharEqualsIgnoreCase` | src/main/java/com/github/spjoe/optional/OptionalParsers.java:53-56 | one character step of equalsIgnoreCase holds exactly when the two characters agree after folding to upper case and then to lower case |
| `JavaChars.CharMatchesLetter` | src/main/java/com/github/spjoe/optional/OptionalParsers.java:53-56 | a character equals a lower-case ASCII letter (other than i and k) ignoring case exactly when it is that letter, its upper case, or the long s standing for 's' |
| `JavaChars.EqualsIgnoreCase` | src/main/java/com/github/spjoe/optional/OptionalParsers.java:53-56 | equalsIgnoreCase holds only between texts of equal length, and always between equal texts |
| `ParserLaws.LongRoundTrip` | src/main/java/com/github/spjoe/optional/OptionalParsers.java:18-20 | parseLong(toString(n, r), r) is n for every 64-bit n and empty for every other n |
| `ParserLaws.DecimalLongRoundTrip` | src/main/java/com/github/spjoe/optional/OptionalParsers.java:14-16 | parseLong(toString(n)) is n for every 64-bit n and empty for every other n |
| `ParserLaws.IntRoundTrip` | src/main/java/com/github/spjoe/optional/OptionalParsers.java:26-28 | parseInt(toString(n, r), r) is n for every 32-bit n and empty for every other n |
| `ParserLaws.DecimalIntRoundTrip` | src/main/java/com/github/spjoe/optional/OptionalParsers.java:22-24 | parseInt(toString(n)) is n for every 32-bit n and empty for every other n |
| `ParserLaws.BigIntegerRoundTrip` | src/main/java/com/github/spjoe/optional/OptionalParsers.java:42-48 | parseBigInteger(toString(n, r), r) is n for every integer n, in decimal and in any radix |
| `ParserLaws.PresentValuePrintsCanonical` | src/main/java/com/github/spjoe/optional/OptionalParsers.java:18-28 | a present result of any integer parser prints back as the canonical form of the text it came from |
| `ParserLaws.FixedWidthIsBigIntegerInRange` | src/main/java/com/github/spjoe/optional/OptionalParsers.java:18-28 | parseLong and parseInt are parseBigInteger restricted to their range; a present int result is also the long result |
| `JavaNumbers.FormatFailures` | src/main/java/com/github/spjoe/optional/OptionalParsers.java:62-68 | text fails the integer grammar exactly for a bad radix, "", a lone "+" or "-", or a non-digit anywhere except a leading sign |
| `ParserLaws.MalformedIsEmpty` | src/main/java/com/github/spjoe/optional/OptionalParsers.java:62-68 | each of those failures gives empty from parseInt, parseLong and parseBigInteger |
| `ParserLaws.TestRoundTrips` | src/test/java/com/github/spjoe/optional/OptionalParsersTest.java:44-59 | 0, 1, -1, 8, -8, MIN_VALUE and MAX_VALUE read back in decimal and in octal for long and int |
| `ParserLaws.TestBeyondLong` | src/test/java/com/github/spjoe/optional/OptionalParsersTest.java:179-193 | one past each MAX_VALUE is empty; the 41-digit test value, written as the text Long.toString prints for it, is empty as a long and exact as a BigInteger; so is the octal test value in radix 8 |
| `ParserLaws.TestLongText` | src/test/java/com/github/spjoe/optional/OptionalParsersTest.java:179-185 | parseLong of the test's own 41-digit text "12342349450760456546756765756756756495687" is empty, because that text lies beyond the 64-bit range |
| `ParserLaws.DecimalDigitsBeyondLong` | src/main/java/com/github/spjoe/optional/OptionalParsers.java:14-16 | parseLong is empty for every unsigned decimal text of twenty or more digits whose first digit is not zero |
| `JavaNumbers.DigitsLowerBound` | src/main/java/com/github/spjoe/optional/OptionalParsers.java:14-20 | a digit string whose first digit is not zero is worth at least radix^(length - 1), so its length alone can put it outside a fixed-width range |
| `ParserLaws.TestBigIntegerText` | src/test/java/com/github/spjoe/optional/OptionalParsersTest.java:179-185 | the test text "12342349450760456546756765756756756495687" is a literal, and parseBigInteger of it is present with the value new BigInteger gives for the same text |
| `ParserLaws.TestBigIntegerRadixText` | src/test/java/com/github/spjoe/optional/OptionalParsersTest.java:187-193 | the test text "2313256465465431321321654654" is a literal in radix 8, and parseBigInteger of it in radix 8 is present with the value new BigInteger gives for the same text and radix |
| `ParserLaws.TestInvalidNumbers` | src/test/java/com/github/spjoe/optional/OptionalParsersTest.java:104-132 | "aInvalidLongString", "aInvalidIntegerString" and null give empty from parseLong and parseInt |
| `ParserLaws.TestInvalidBigInteger` | src/test/java/com/github/spjoe/optional/OptionalParsersTest.java:195-200 | "aInvalidBigIntegerString" gives empty from parseBigInteger |
| `ParserLaws.EqualsIgnoreCaseWord` | src/main/java/com/github/spjoe/optional/OptionalParsers.java:53-56 | equalsIgnoreCase against a lower-case word is spelling the word letter by letter in either case |
| `ParserLaws.ParseBooleanFalse` | src/main/java/com/github/spjoe/optional/OptionalParsers.java:53-54 | parseBoolean gives false exactly for the five letters of "false" each in either case (a long s may stand for 's') |
| `ParserLaws.ParseBooleanTrue` | src/main/java/com/github/spjoe/optional/OptionalParsers.java:55-56 | parseBoolean gives true exactly for the four letters of "true" each in either case |
| `ParserLaws.ParseBooleanEmpty` | src/main/java/com/github/spjoe/optional/OptionalParsers.java:50-60 | parseBoolean is empty exactly for null and text spelling neither word |
| `ParserLaws.TestBooleans` | src/test/java/com/github/spjoe/optional/OptionalParsersTest.java:80-85 | "true", "tRuE", "false" and "FaLSe" parse; "invalidBooleanString", "" and null give empty |

## Left out

- `parseFloat`, `parseDouble` and `parseBigDecimal`: they are IEEE-754 and `BigDecimal` literal parsing inside the JDK, whose grammar and rounding are not part of this model.
- `ThrowableSupplier` has no logic of its own. It is the conversion argument `() -> Result<T>` of `ParseAnyNumber`.
- OptionalParsers.ParseBigInteger and OptionalParsers.ParseBigIntegerWithRadix: `new BigInteger(s, radix)` throws `ArithmeticException` when the magnitude would exceed its supported range (a magnitude of 2^Integer.MAX_VALUE or more, about 646 million decimal digits). `parseAnyNumber` does not catch it, so it escapes. The model returns the value instead, with no size bound.
- `null` passed to the `BigInteger` parsers: the JDK throws `NullPointerException`, which escapes. The model puts a non-null precondition there instead of modelling the escape.
- A Java `String` is a sequence of UTF-16 code units: it can hold lone surrogates, and a supplementary character counts as two units in `equalsIgnoreCase`'s length test. A Dafny `string` is a sequence of Unicode scalar values. No result changes, because no surrogate unit is a digit or folds to an ASCII letter.
- Digits are the ASCII ones only (`0`-`9`, `a`-`z`, `A`-`Z`). `Character.digit` also accepts other Unicode decimal digits and full-width letters.
- JavaChars.ToUpperCase and JavaChars.ToLowerCase: the case mappings cover ASCII letters and the four non-ASCII characters whose Java case mapping lands on an ASCII letter (U+0130, U+0131, U+017F, U+212A). Every other character maps to itself. That does not change any comparison against the ASCII words "true" and "false".
- The fixed-width readers (`Integer.parseInt`, `Long.parseLong`) accumulate the value digit by digit in a machine word and check for overflow on every step. The model computes the exact value and then checks the range. The same texts are accepted, with the same values.
- The private constructor and the test matchers (`OptionalMatchers`, `OptionalHasValue`) have no behaviour to model.
