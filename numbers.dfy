/**
 * Java's integer widths, and the number parsing and printing the cleaning
 * steps call: Long.parseLong, Integer.parseInt, Double.parseDouble,
 * Double.toString and the (long) cast. Doubles are modelled as reals.
 */
module Numbers {
  import opened Wrappers
  import opened Text

  const MinInt32: int := -0x8000_0000
  const MaxInt32: int := 0x7fff_ffff
  const MinInt64: int := -0x8000_0000_0000_0000
  const MaxInt64: int := 0x7fff_ffff_ffff_ffff

  type Int32 = x: int | MinInt32 <= x <= MaxInt32
  type Int64 = x: int | MinInt64 <= x <= MaxInt64

  /** An optional '+' or '-' followed by at least one ASCII digit, with no range limit. */
  function ParseSigned(s: string): (r: Option<int>)
    ensures r.Some? ==> s != []
  {
    if s == [] then None
    else if s[0] == '-' || s[0] == '+' then
      if |s| > 1 && AllDigits(s[1..]) then
        var magnitude: int := DigitsValue(s[1..]);
        Some(if s[0] == '-' then -magnitude else magnitude)
      else None
    else if AllDigits(s) then Some(DigitsValue(s))
    else None
  }

  /** Long.parseLong: a signed decimal that fits in 64 bits; None stands for NumberFormatException. */
  function ParseLong(s: string): Option<Int64> {
    match ParseSigned(s)
    case Some(n) => if MinInt64 <= n <= MaxInt64 then Some(n) else None
    case None => None
  }

  /** Integer.parseInt: a signed decimal that fits in 32 bits. */
  function ParseInt(s: string): Option<Int32> {
    match ParseSigned(s)
    case Some(n) => if MinInt32 <= n <= MaxInt32 then Some(n) else None
    case None => None
  }

  /** Printing an integer and parsing it back with Long.parseLong gives the integer. */
  lemma ParseLongRoundTrip(n: Int64)
    ensures ParseSigned(IntText(n)) == Some(n)
    ensures ParseLong(IntText(n)) == Some(n)
  {
    if n < 0 {
      var m: nat := -(n as int);
      NatTextRoundTrip(m);
      assert IntText(n)[1..] == NatText(m);
    } else {
      NatTextRoundTrip(n);
      assert IsAsciiDigit(NatText(n)[0]);
    }
  }

  /** Integer.parseInt accepts exactly the texts Long.parseLong accepts with a value in 32-bit range. */
  lemma ParseIntIsNarrowLong(s: string)
    ensures ParseInt(s).Some? <==> ParseLong(s).Some? && MinInt32 <= ParseLong(s).value <= MaxInt32
    ensures ParseInt(s).Some? ==> ParseInt(s).value == ParseLong(s).value
  {
  }

  /** The regular expression `-?\d*\.\d+`, matched against the whole text. */
  predicate IsDecimalText(s: string) {
    var t := if s != [] && s[0] == '-' then s[1..] else s;
    var i := LastIndexOf(t, '.');
    i >= 0 && AllDigits(t[..i]) && i + 1 < |t| && AllDigits(t[i + 1..])
  }

  /** The value of the digits after a decimal point: 0.d1d2... is (d1 + 0.d2...) / 10. */
  function FractionValue(digits: string): (r: real)
    requires AllDigits(digits)
    ensures 0.0 <= r <= 1.0
  {
    if digits == [] then 0.0
    else (DigitValue(digits[0]) as real + FractionValue(digits[1..])) / 10.0
  }

  /** The value of unsigned digits with an optional decimal point, when at least one digit is present. */
  function ParseUnsignedDecimal(t: string): Option<real> {
    var i := LastIndexOf(t, '.');
    if i < 0 then
      if t != [] && AllDigits(t) then Some(DigitsValue(t) as real) else None
    else if AllDigits(t[..i]) && AllDigits(t[i + 1..]) && |t| > 1 then
      Some(DigitsValue(t[..i]) as real + FractionValue(t[i + 1..]))
    else None
  }

  /**
   * Double.parseDouble for plain decimals: the text is trimmed, may carry a
   * sign, and holds digits with at most one decimal point.
   */
  function ParseDouble(s: string): Option<real> {
    var t := Trim(s);
    if t != [] && (t[0] == '-' || t[0] == '+') then Signed(t[0] == '-', ParseUnsignedDecimal(t[1..]))
    else ParseUnsignedDecimal(t)
  }

  function Signed(negative: bool, magnitude: Option<real>): Option<real> {
    if magnitude.None? then None
    else if negative then Some(-magnitude.value)
    else magnitude
  }

  /** Every text matching `-?\d*\.\d+` is accepted by Double.parseDouble. */
  lemma DecimalTextParses(s: string)
    requires IsDecimalText(s)
    ensures ParseDouble(s).Some?
  {
    var t := if s != [] && s[0] == '-' then s[1..] else s;
    var i := LastIndexOf(t, '.');
    assert !IsControlOrSpace(s[0]) by {
      if s[0] != '-' {
        assert s[0] == t[0];
        if i > 0 {
          assert IsAsciiDigit(t[..i][0]);
        }
      }
    }
    assert !IsControlOrSpace(s[|s| - 1]) by {
      assert s[|s| - 1] == t[|t| - 1] == t[i + 1..][|t| - i - 2];
    }
    TrimIdentity(s);
    if s[0] == '-' {
      assert Trim(s)[1..] == t;
    }
  }

  /** Plain digits parse as their own value. */
  lemma ParseUnsignedDigits(digits: string)
    requires digits != [] && AllDigits(digits)
    ensures ParseUnsignedDecimal(digits) == Some(DigitsValue(digits) as real)
  {
    assert forall j :: 0 <= j < |digits| ==> digits[j] != '.';
    assert LastIndexOf(digits, '.') < 0;
  }

  /** Plain digits, with or without a leading minus, survive trim() unchanged. */
  lemma TrimSignedDigits(sign: string, digits: string)
    requires sign == "" || sign == "-"
    requires digits != [] && AllDigits(digits)
    ensures Trim(sign + digits) == sign + digits
  {
    var t := sign + digits;
    assert t[|t| - 1] == digits[|digits| - 1];
    assert IsAsciiDigit(digits[0]);
    TrimIdentity(t);
  }

  /** A trimmed text with a leading sign parses as its unsigned rest, negated for a minus. */
  lemma ParseDoubleSigned(t: string)
    requires Trim(t) == t && t != [] && (t[0] == '-' || t[0] == '+')
    ensures ParseDouble(t) == Signed(t[0] == '-', ParseUnsignedDecimal(t[1..]))
  {
  }

  /** A minus followed by digits parses as the negated value of the digits. */
  lemma ParseDoubleNegative(t: string)
    requires |t| >= 2 && t[0] == '-' && AllDigits(t[1..])
    ensures ParseDouble(t) == Some(-(DigitsValue(t[1..]) as real))
  {
    assert IsAsciiDigit(t[1..][|t| - 2]);
    TrimIdentity(t);
    ParseDoubleSigned(t);
    ParseUnsignedDigits(t[1..]);
  }

  /** Digits with a leading minus parse as the negated value they spell. */
  lemma ParseDoubleNegativeDigits(digits: string)
    requires digits != [] && AllDigits(digits)
    ensures ParseDouble("-" + digits) == Some(-(DigitsValue(digits) as real))
  {
    var t := "-" + digits;
    assert t[1..] == digits;
    ParseDoubleNegative(t);
  }

  /** Plain digits parse as the value they spell. */
  lemma ParseDoublePlainDigits(digits: string)
    requires digits != [] && AllDigits(digits)
    ensures ParseDouble(digits) == Some(DigitsValue(digits) as real)
  {
    TrimSignedDigits("", digits);
    assert "" + digits == digits;
    assert Trim(digits) == digits;
    assert IsAsciiDigit(digits[0]) && digits[0] != '-' && digits[0] != '+';
    ParseUnsignedDigits(digits);
    assert ParseDouble(digits) == ParseUnsignedDecimal(digits);
  }

  /** A printed integer parses back as the same number under Double.parseDouble. */
  lemma ParseDoubleOfIntText(n: int)
    ensures ParseDouble(IntText(n)) == Some(n as real)
  {
    var m: nat := if n < 0 then -n else n;
    NatTextRoundTrip(m);
    if n < 0 {
      ParseDoubleNegativeDigits(NatText(m));
    } else {
      ParseDoublePlainDigits(NatText(m));
    }
  }

  /** Up to `fuel` digits of the decimal expansion of a fraction in [0, 1). */
  function FractionDigits(f: real, fuel: nat): (r: string)
    requires 0.0 <= f < 1.0
    ensures AllDigits(r)
    decreases fuel
  {
    if f == 0.0 || fuel == 0 then ""
    else
      var t := f * 10.0;
      var d := t.Floor;
      [DigitChar(d)] + FractionDigits(t - d as real, fuel - 1)
  }

  /**
   * Double.toString in its plain form: integer part, '.', and the fraction
   * digits (at least one, at most 17).
   */
  function DoubleText(x: real): (r: string)
    ensures EndsWithDigit(r)
  {
    if x < 0.0 then "-" + UnsignedDoubleText(-x) else UnsignedDoubleText(x)
  }

  function UnsignedDoubleText(x: real): (r: string)
    requires x >= 0.0
    ensures EndsWithDigit(r)
  {
    var whole := x.Floor;
    var digits := FractionDigits(x - whole as real, 17);
    NatText(whole) + "." + (if digits == "" then "0" else digits)
  }

  /** A whole number prints with the fraction ".0", as Double.toString does. */
  lemma DoubleTextOfWhole(n: int)
    ensures DoubleText(n as real) == IntText(n) + ".0"
  {
    var m: nat := if n < 0 then -n else n;
    UnsignedDoubleTextOfWhole(m);
    if n < 0 {
      assert -(n as real) == m as real;
    }
  }

  lemma UnsignedDoubleTextOfWhole(m: nat)
    ensures UnsignedDoubleText(m as real) == NatText(m) + ".0"
  {
    assert (m as real).Floor == m;
    assert FractionDigits(0.0, 17) == "";
  }

  /** The (long) cast of a double: truncation toward zero. */
  function Trunc(x: real): (r: int)
    ensures x >= 0.0 ==> r as real <= x < r as real + 1.0
    ensures x < 0.0 ==> r as real - 1.0 < x <= r as real
  {
    if x >= 0.0 then x.Floor else -((-x).Floor)
  }
}
