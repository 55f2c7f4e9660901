/**
 * The integer conversions the parsers delegate to: Integer.parseInt,
 * Long.parseLong and new BigInteger(String, int) on the reading side, and
 * Long.toString(long, int) on the writing side.  All three readers accept the
 * same grammar: a radix in [2, 36], an optional single leading '+' or '-', and
 * one or more digits valid in the radix (letters in either case).  The two
 * fixed-width readers also reject a value outside their signed range.
 */
module JavaNumbers {
  import opened Wrappers
  import opened JavaChars

  /** Integer.MIN_VALUE, Integer.MAX_VALUE, Long.MIN_VALUE, Long.MAX_VALUE. */
  const MinInt: int := -0x8000_0000
  const MaxInt: int := 0x7fff_ffff
  const MinLong: int := -0x8000_0000_0000_0000
  const MaxLong: int := 0x7fff_ffff_ffff_ffff

  predicate IsInt(n: int) { MinInt <= n <= MaxInt }
  predicate IsLong(n: int) { MinLong <= n <= MaxLong }

  /** Every character of s is a digit in radix. */
  predicate IsDigits(s: string, radix: int) {
    forall i :: 0 <= i < |s| ==> Digit(s[i], radix) >= 0
  }

  /** The value of a digit string, most significant digit first. */
  function DigitsValue(s: string, radix: int): (v: nat)
    requires IsRadix(radix) && IsDigits(s, radix)
    decreases |s|
  {
    if s == [] then 0
    else DigitsValue(s[..|s| - 1], radix) * radix + Digit(s[|s| - 1], radix)
  }

  /** Splitting off the last digit of m, when m has at least two digits. */
  lemma SplitLastDigit(m: nat, radix: int)
    requires IsRadix(radix) && m >= radix
    ensures m == (m / radix) * radix + m % radix
    ensures 0 <= m % radix < radix
    ensures 1 <= m / radix < m
  {
  }

  predicate IsSign(c: char) { c == '-' || c == '+' }

  /** The literal without its leading sign, if it has one. */
  function Magnitude(s: string): (m: string) {
    if |s| > 0 && IsSign(s[0]) then s[1..] else s
  }

  predicate IsNegative(s: string) { |s| > 0 && s[0] == '-' }

  /** The grammar shared by Integer.parseInt, Long.parseLong and new BigInteger(s, radix). */
  predicate IsLiteral(s: string, radix: int): (b: bool)
    ensures b ==> IsRadix(radix) && s != "" && s != "-" && s != "+"
    ensures b ==> forall i :: 0 < i < |s| ==> Digit(s[i], radix) >= 0
  {
    IsRadix(radix) && |Magnitude(s)| > 0 && IsDigits(Magnitude(s), radix)
  }

  /**
   * The format failures Integer.parseInt, Long.parseLong and
   * new BigInteger(s, radix) document: a radix outside [2, 36], the empty
   * string, a lone sign, or a character that is not a digit in the radix
   * anywhere except a leading sign.
   */
  predicate Malformed(s: string, radix: int) {
    || !IsRadix(radix)
    || s == "" || s == "-" || s == "+"
    || exists i :: 0 <= i < |s| && Digit(s[i], radix) < 0 && !(i == 0 && IsSign(s[i]))
  }

  /** The grammar rejects a text exactly for the documented format failures. */
  lemma FormatFailures(t: string, radix: int)
    ensures !IsLiteral(t, radix) <==> Malformed(t, radix)
  {
    if IsRadix(radix) && |t| > 0 {
      var k := if IsSign(t[0]) then 1 else 0;
      assert Magnitude(t) == t[k..];
      if !IsDigits(t[k..], radix) {
        var j :| 0 <= j < |t| - k && Digit(t[k..][j], radix) < 0;
        assert Digit(t[j + k], radix) < 0 && !(j + k == 0 && IsSign(t[j + k]));
      }
      if exists i :: 0 <= i < |t| && Digit(t[i], radix) < 0 && !(i == 0 && IsSign(t[i])) {
        var i :| 0 <= i < |t| && Digit(t[i], radix) < 0 && !(i == 0 && IsSign(t[i]));
        assert i >= k;
        assert Digit(t[k..][i - k], radix) < 0;
      }
    }
  }

  /** The signed value a well-formed literal denotes. */
  function LiteralValue(s: string, radix: int): (v: int)
    requires IsLiteral(s, radix)
    ensures IsNegative(s) ==> v <= 0
    ensures !IsNegative(s) ==> v >= 0
  {
    var m: int := DigitsValue(Magnitude(s), radix);
    if IsNegative(s) then -m else m
  }

  /**
   * new BigInteger(s, radix): the literal's value, or a format failure for a
   * bad radix, the empty string, a lone sign or a character that is not a digit.
   */
  function ParseSigned(s: string, radix: int): (r: Result<int>)
    ensures r.FormatError? <==> Malformed(s, radix)
    ensures r.Ok? ==> IsLiteral(s, radix) && ToString(r.value, radix) == Canonical(s, radix)
  {
    FormatFailures(s, radix);
    if IsLiteral(s, radix) then
      ToStringOfLiteral(s, radix);
      Ok(LiteralValue(s, radix))
    else FormatError
  }

  /**
   * Integer.parseInt(s, radix): null, a malformed literal and a value outside
   * the 32-bit signed range all signal a format failure.
   */
  function IntegerParseInt(s: Option<string>, radix: int): (r: Result<int>)
    ensures r.FormatError? <==> s.None? || Malformed(s.value, radix) || !IsInt(ParseSigned(s.value, radix).value)
    ensures r.Ok? ==> IsInt(r.value) && r.value == ParseSigned(s.value, radix).value
  {
    if s.None? then FormatError
    else
      match ParseSigned(s.value, radix)
      case Ok(v) => if IsInt(v) then Ok(v) else FormatError
      case FormatError => FormatError
  }

  /**
   * Long.parseLong(s, radix): null, a malformed literal and a value outside
   * the 64-bit signed range all signal a format failure.
   */
  function LongParseLong(s: Option<string>, radix: int): (r: Result<int>)
    ensures r.FormatError? <==> s.None? || Malformed(s.value, radix) || !IsLong(ParseSigned(s.value, radix).value)
    ensures r.Ok? ==> IsLong(r.value) && r.value == ParseSigned(s.value, radix).value
  {
    if s.None? then FormatError
    else
      match ParseSigned(s.value, radix)
      case Ok(v) => if IsLong(v) then Ok(v) else FormatError
      case FormatError => FormatError
  }

  /**
   * The digits of m in radix as Java writes them: lower case, most
   * significant first, no leading zero except for zero itself.
   */
  function ToDigits(m: nat, radix: int): (s: string)
    requires IsRadix(radix)
    ensures |s| > 0 && IsDigits(s, radix)
    ensures DigitsValue(s, radix) == m
    ensures s[0] == '0' <==> m == 0
    ensures m == 0 ==> s == "0"
    ensures forall i :: 0 <= i < |s| ==> ToLowerCase(s[i]) == s[i]
    decreases m
  {
    if m < radix then [ForDigit(m, radix)]
    else
      SplitLastDigit(m, radix);
      var q, d := ToDigits(m / radix, radix), ForDigit(m % radix, radix);
      var s := q + [d];
      assert s[..|s| - 1] == q && s[|s| - 1] == d;
      assert DigitsValue(s, radix) == DigitsValue(q, radix) * radix + Digit(d, radix);
      s
  }

  /**
   * Long.toString(n, radix) (and Integer.toString, BigInteger.toString):
   * a '-' for a negative value, then the digits of its magnitude; a radix
   * out of range is replaced by ten.
   */
  function ToString(n: int, radix: int): (s: string)
    ensures |s| > 0 && (s[0] == '-' <==> n < 0)
    ensures s == "0" <==> n == 0
    ensures var r := if IsRadix(radix) then radix else 10;
            var digits := if n < 0 then s[1..] else s;
            |digits| > 0 && IsDigits(digits, r) && DigitsValue(digits, r) == if n < 0 then -n else n
  {
    var r := if IsRadix(radix) then radix else 10;
    if n < 0 then "-" + ToDigits(-n, r) else ToDigits(n, r)
  }

  /** Reading back what Long.toString wrote gives the same number. */
  lemma ParseSignedToString(n: int, radix: int)
    requires IsRadix(radix)
    ensures ParseSigned(ToString(n, radix), radix) == Ok(n)
  {
    var s := ToString(n, radix);
    var m := ToDigits(if n < 0 then -n else n, radix);
    assert Digit(m[0], radix) >= 0;
    assert !IsSign(m[0]);
    assert Magnitude(s) == m;
    assert IsLiteral(s, radix) && LiteralValue(s, radix) == n;
  }

  /** Drops leading zeros from a digit string, keeping at least one digit. */
  function StripZeros(m: string): (z: string)
    ensures |m| > 0 ==> |z| > 0
    ensures |z| > 1 ==> z[0] != '0'
    decreases |m|
  {
    if |m| > 1 && m[0] == '0' then StripZeros(m[1..]) else m
  }

  function Lowered(m: string): (l: string) {
    seq(|m|, i requires 0 <= i < |m| => ToLowerCase(m[i]))
  }

  /**
   * The text Long.toString writes for the value of a well-formed literal:
   * no '+', no leading zeros, lower-case digits, and no '-' before zero.
   */
  function Canonical(s: string, radix: int): (c: string)
    requires IsLiteral(s, radix)
  {
    var digits := Lowered(StripZeros(Magnitude(s)));
    if IsNegative(s) && digits != "0" then "-" + digits else digits
  }

  /** A leading zero does not change the value of a digit string. */
  lemma {:induction false} LeadingZeroValue(m: string, radix: int)
    requires IsRadix(radix) && IsDigits(m, radix) && |m| > 0 && m[0] == '0'
    ensures DigitsValue(m, radix) == DigitsValue(m[1..], radix)
    decreases |m|
  {
    if |m| > 1 {
      var p := m[..|m| - 1];
      LeadingZeroValue(p, radix);
      assert m[1..][..|m| - 2] == p[1..];
    }
  }

  /** Stripping leading zeros keeps the digits and their value. */
  lemma {:induction false} StripZerosValue(m: string, radix: int)
    requires IsRadix(radix) && IsDigits(m, radix)
    ensures IsDigits(StripZeros(m), radix)
    ensures DigitsValue(StripZeros(m), radix) == DigitsValue(m, radix)
    decreases |m|
  {
    if |m| > 1 && m[0] == '0' {
      LeadingZeroValue(m, radix);
      StripZerosValue(m[1..], radix);
    }
  }

  /** Writing the digits in lower case keeps them digits of the same value. */
  lemma {:induction false} LoweredValue(m: string, radix: int)
    requires IsRadix(radix) && IsDigits(m, radix)
    ensures IsDigits(Lowered(m), radix)
    ensures DigitsValue(Lowered(m), radix) == DigitsValue(m, radix)
    decreases |m|
  {
    forall i | 0 <= i < |m| ensures Digit(Lowered(m)[i], radix) == Digit(m[i], radix) {
      ForDigitOfDigit(m[i], radix);
    }
    if |m| > 0 {
      var p := m[..|m| - 1];
      LoweredValue(p, radix);
      assert Lowered(m)[..|m| - 1] == Lowered(p);
    }
  }

  /** A digit string whose first digit is not zero has a positive value. */
  lemma {:induction false} NonzeroLeadingDigit(m: string, radix: int)
    requires IsRadix(radix) && IsDigits(m, radix) && |m| > 0 && m[0] != '0'
    ensures DigitsValue(m, radix) > 0
    decreases |m|
  {
    var d := Digit(m[|m| - 1], radix);
    if |m| == 1 {
      assert m[..0] == [];
      assert DigitsValue(m, radix) == DigitsValue([], radix) * radix + d;
    } else {
      var p := m[..|m| - 1];
      NonzeroLeadingDigit(p, radix);
      AtLeastTwoDigits(DigitsValue(p, radix), d, radix);
    }
  }

  /** The last digit of V * radix + d is d, and the rest is V. */
  lemma AppendDigitDivMod(v: nat, d: nat, radix: int)
    requires IsRadix(radix) && d < radix
    ensures (v * radix + d) / radix == v && (v * radix + d) % radix == d
  {
    var n := v * radix + d;
    var q, r := n / radix, n % radix;
    assert n == q * radix + r && 0 <= r < radix;
    assert (q - v) * radix == d - r;
    if q > v {
      AtLeastOneRadix(q - v, radix);
    } else if q < v {
      AtLeastOneRadix(v - q, radix);
    }
  }

  lemma AtLeastOneRadix(k: int, radix: int)
    requires k >= 1 && radix >= 0
    ensures k * radix >= radix
  {
  }

  /** b raised to the power k. */
  function Pow(b: nat, k: nat): (p: nat)
    ensures b >= 1 ==> p >= 1
  {
    if k == 0 then 1 else b * Pow(b, k - 1)
  }

  /** A larger exponent gives a power at least as large, for a base of at least one. */
  lemma {:induction false} PowMono(b: nat, k: nat, j: nat)
    requires b >= 1 && k <= j
    ensures Pow(b, k) <= Pow(b, j)
    decreases j - k
  {
    if k < j {
      PowMono(b, k, j - 1);
      MulMono(Pow(b, j - 1), 1, b);
    }
  }

  /** Multiplying both sides of a >= c by the same natural number keeps the order. */
  lemma MulMono(a: nat, c: nat, r: nat)
    requires a >= c
    ensures a * r >= c * r
  {
  }

  /**
   * A digit string whose leading digit is not zero is worth at least
   * radix^(length - 1): its length bounds its value from below.
   */
  lemma {:induction false} DigitsLowerBound(m: string, radix: int)
    requires IsRadix(radix) && IsDigits(m, radix) && |m| > 0 && Digit(m[0], radix) >= 1
    ensures DigitsValue(m, radix) >= Pow(radix, |m| - 1)
    decreases |m|
  {
    var p := m[..|m| - 1];
    if |m| > 1 {
      assert p[0] == m[0];
      assert IsDigits(p, radix) by {
        assert forall i :: 0 <= i < |p| ==> p[i] == m[i];
      }
      DigitsLowerBound(p, radix);
      MulMono(DigitsValue(p, radix), Pow(radix, |m| - 2), radix);
      assert DigitsValue(m, radix) >= DigitsValue(p, radix) * radix;
    } else {
      assert p == [];
    }
  }

  /** A positive value followed by a digit is at least the radix. */
  lemma AtLeastTwoDigits(v: nat, d: nat, radix: int)
    requires IsRadix(radix) && v >= 1
    ensures v * radix + d >= radix
  {
  }

  /**
   * Java writes the value of a digit string without leading zeros as that
   * same string in lower case.
   */
  lemma {:induction false} ToDigitsOfValue(m: string, radix: int)
    requires IsRadix(radix) && IsDigits(m, radix) && |m| > 0
    requires |m| == 1 || m[0] != '0'
    ensures ToDigits(DigitsValue(m, radix), radix) == Lowered(m)
    decreases |m|
  {
    var c := m[|m| - 1];
    ForDigitOfDigit(c, radix);
    if |m| == 1 {
      OneDigitValue(m, radix);
      assert Lowered(m) == [ToLowerCase(c)];
    } else {
      var p := m[..|m| - 1];
      assert p[0] == m[0];
      var v, d := DigitsValue(p, radix), Digit(c, radix);
      assert DigitsValue(m, radix) == v * radix + d;
      NonzeroLeadingDigit(p, radix);
      assert m == p + [c];
      calc {
        ToDigits(DigitsValue(m, radix), radix);
        ToDigits(v * radix + d, radix);
        { ToDigitsAppend(v, d, radix); }
        ToDigits(v, radix) + [ForDigit(d, radix)];
        { ToDigitsOfValue(p, radix); }
        Lowered(p) + [ToLowerCase(c)];
        { LoweredSnoc(p, c); }
        Lowered(m);
      }
    }
  }

  /** A single digit denotes its own digit value. */
  lemma OneDigitValue(m: string, radix: int)
    requires IsRadix(radix) && IsDigits(m, radix) && |m| == 1
    ensures DigitsValue(m, radix) == Digit(m[0], radix)
  {
    assert m[..0] == [];
    assert DigitsValue(m, radix) == DigitsValue([], radix) * radix + Digit(m[0], radix);
  }

  /** Java writes a positive value followed by one more digit by appending that digit. */
  lemma ToDigitsAppend(v: nat, d: nat, radix: int)
    requires IsRadix(radix) && v >= 1 && d < radix
    ensures ToDigits(v * radix + d, radix) == ToDigits(v, radix) + [ForDigit(d, radix)]
  {
    AtLeastTwoDigits(v, d, radix);
    AppendDigitDivMod(v, d, radix);
  }

  lemma LoweredSnoc(p: string, c: char)
    ensures Lowered(p + [c]) == Lowered(p) + [ToLowerCase(c)]
  {
  }

  /** Printing the value of a well-formed literal gives its canonical text. */
  lemma ToStringOfLiteral(s: string, radix: int)
    requires IsLiteral(s, radix)
    ensures ToString(LiteralValue(s, radix), radix) == Canonical(s, radix)
  {
    var m := Magnitude(s);
    var z := StripZeros(m);
    StripZerosValue(m, radix);
    ToDigitsOfValue(z, radix);
    var v: int := DigitsValue(m, radix);
    var digits := Lowered(z);
    assert ToDigits(v, radix) == digits;
    assert digits == "0" <==> v == 0;
    var n := LiteralValue(s, radix);
    assert n == if IsNegative(s) then -v else v;
    if v == 0 {
      assert ToString(n, radix) == ToDigits(0, radix);
    } else if IsNegative(s) {
      assert ToString(n, radix) == "-" + ToDigits(v, radix);
    } else {
      assert ToString(n, radix) == ToDigits(v, radix);
    }
  }

  /**
   * Two well-formed literals denote the same number exactly when they have
   * the same canonical text.
   */
  lemma SameValueIffSameCanonical(s: string, t: string, radix: int)
    requires IsLiteral(s, radix) && IsLiteral(t, radix)
    ensures LiteralValue(s, radix) == LiteralValue(t, radix) <==> Canonical(s, radix) == Canonical(t, radix)
  {
    ToStringOfLiteral(s, radix);
    ToStringOfLiteral(t, radix);
    ParseSignedToString(LiteralValue(s, radix), radix);
    ParseSignedToString(LiteralValue(t, radix), radix);
  }
}
