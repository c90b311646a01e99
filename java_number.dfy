/**
 The numeric test the keep-alive scan applies to a `timeout` value: the
 library test `NumberUtils.isCreatable`, restricted to integer literals,
 followed by `Long.parseLong`.
 */
module JavaNumber {

  const LongMin: int := -0x8000_0000_0000_0000
  const LongMax: int := 0x7FFF_FFFF_FFFF_FFFF

  predicate IsDigit(c: char) { '0' <= c <= '9' }

  predicate AllDigits(s: string) { forall i | 0 <= i < |s| :: IsDigit(s[i]) }

  function DigitValue(c: char): (d: nat)
    requires IsDigit(c)
    ensures d < 10
  {
    c as int - '0' as int
  }

  function DigitChar(d: nat): (c: char)
    requires d < 10
    ensures IsDigit(c) && DigitValue(c) == d
  {
    ('0' as int + d) as char
  }

  /** The value of a run of decimal digits, most significant first. */
  function DigitsValue(s: string): nat
    requires AllDigits(s)
  {
    if s == [] then 0 else 10 * DigitsValue(s[..|s| - 1]) + DigitValue(s[|s| - 1])
  }

  /** The characters after an optional leading sign. */
  function Magnitude(s: string): (m: string)
    ensures m == s || (|s| >= 1 && s[0] in "+-" && m == s[1..])
  {
    if s != [] && (s[0] == '-' || s[0] == '+') then s[1..] else s
  }

  predicate IsNegative(s: string) { s != [] && s[0] == '-' }

  /**
   The integer literals the creatable-number test accepts: an optional sign,
   then one or more ASCII digits. A literal whose first digit is 0 and which
   has more digits is taken to be octal, so each later digit must be 0 to 7
   ("010" is accepted, "08" is not).
   */
  predicate IsIntegerLiteral(s: string)
  {
    var m := Magnitude(s);
    && m != []
    && AllDigits(m)
    && (m[0] == '0' && |m| > 1 ==> forall i | 1 <= i < |m| :: m[i] <= '7')
  }

  /** What the creatable-number test followed by `Long.parseLong` makes of a string. */
  datatype Parsed =
    | Number(value: int)   // accepted and parsed
    | OutOfRange           // accepted by the test, but parseLong throws NumberFormatException
    | NotNumeric           // rejected by the test

  /** The value of a signed run of digits, read in decimal whatever its leading zeros. */
  function LiteralValue(s: string): int
    requires AllDigits(Magnitude(s))
  {
    if IsNegative(s) then 0 - DigitsValue(Magnitude(s)) else DigitsValue(Magnitude(s))
  }

  function ParseLong(s: string): (r: Parsed)
    ensures r.NotNumeric? <==> !IsIntegerLiteral(s)
    ensures IsIntegerLiteral(s) ==> (r.OutOfRange? <==> !(LongMin <= LiteralValue(s) <= LongMax))
    ensures r.Number? ==> r.value == LiteralValue(s) && LongMin <= r.value <= LongMax
    ensures r.Number? && IsNegative(s) ==> r.value <= 0
    ensures r.Number? && !IsNegative(s) ==> r.value >= 0
  {
    if !IsIntegerLiteral(s) then NotNumeric
    else if LongMin <= LiteralValue(s) <= LongMax then Number(LiteralValue(s))
    else OutOfRange
  }

  /** The decimal digits of `n`, without leading zeros. */
  function NatDigits(n: nat): (s: string)
    ensures s != [] && AllDigits(s)
    ensures DigitsValue(s) == n
    ensures s[0] == '0' ==> n == 0 && |s| == 1
  {
    if n < 10 then [DigitChar(n)]
    else
      var s := NatDigits(n / 10) + [DigitChar(n % 10)];
      assert s[..|s| - 1] == NatDigits(n / 10);
      s
  }

  /** `Long.toString(n)`: an optional minus sign and the digits of the magnitude. */
  function DecimalString(n: int): (s: string)
  {
    if n < 0 then "-" + NatDigits(-n) else NatDigits(n)
  }

  /**
   Printing an integer and parsing it back gives the same number when it is a
   long, and a parse failure when it is not.
   */
  lemma {:induction false} ParseLongOfDecimalString(n: int)
    ensures IsIntegerLiteral(DecimalString(n))
    ensures ParseLong(DecimalString(n)) == if LongMin <= n <= LongMax then Number(n) else OutOfRange
  {
    var s := DecimalString(n);
    if n < 0 {
      assert s[0] == '-' && s[1..] == NatDigits(-n);
    }
  }

  /** A run of digits with its leading zeros removed, keeping at least one digit. */
  function StripZeros(d: string): (r: string)
    requires d != [] && AllDigits(d)
    ensures r != [] && AllDigits(r) && (r[0] == '0' ==> |r| == 1)
  {
    if |d| > 1 && d[0] == '0' then StripZeros(d[1..]) else d
  }

  /** The literal as `Long.toString` would print its value: no plus sign, no leading zeros, no minus on zero. */
  function CanonicalLiteral(s: string): string
    requires IsIntegerLiteral(s)
  {
    var d := StripZeros(Magnitude(s));
    if IsNegative(s) && d != "0" then "-" + d else d
  }

  lemma {:induction false} LeadingZeroValue(rest: string)
    requires AllDigits(rest)
    ensures AllDigits(['0'] + rest) && DigitsValue(['0'] + rest) == DigitsValue(rest)
  {
    var d := ['0'] + rest;
    assert forall i | 0 <= i < |d| :: IsDigit(d[i]) by {
      forall i | 0 <= i < |d| ensures IsDigit(d[i]) {
        if i > 0 { assert d[i] == rest[i - 1]; }
      }
    }
    if rest != [] {
      assert d[..|d| - 1] == ['0'] + rest[..|rest| - 1];
      LeadingZeroValue(rest[..|rest| - 1]);
    } else {
      assert d[..0] == [];
    }
  }

  /** Leading zeros add nothing to the value. */
  lemma {:induction false} StripZerosValue(d: string)
    requires d != [] && AllDigits(d)
    ensures DigitsValue(StripZeros(d)) == DigitsValue(d)
  {
    if |d| > 1 && d[0] == '0' {
      assert d == ['0'] + d[1..];
      LeadingZeroValue(d[1..]);
      StripZerosValue(d[1..]);
    }
  }

  /** Digits that start with a digit other than 0 have a positive value. */
  lemma {:induction false} LeadingDigitPositive(d: string)
    requires d != [] && AllDigits(d) && d[0] != '0'
    ensures DigitsValue(d) >= 1
  {
    if |d| > 1 {
      LeadingDigitPositive(d[..|d| - 1]);
    } else {
      assert d[..0] == [];
    }
  }

  lemma {:induction false} DigitRoundTrip(c: char)
    requires IsDigit(c)
    ensures DigitChar(DigitValue(c)) == c
  {
  }

  lemma {:induction false} SingleDigitValue(d: string)
    requires |d| == 1 && AllDigits(d)
    ensures DigitsValue(d) == DigitValue(d[0])
  {
    assert d[..0] == [];
  }

  /** Digits without a leading zero are exactly what NatDigits prints for their value. */
  lemma {:induction false} NatDigitsOfValue(d: string)
    requires d != [] && AllDigits(d) && (d[0] == '0' ==> |d| == 1)
    ensures NatDigits(DigitsValue(d)) == d
  {
    var last := d[|d| - 1];
    DigitRoundTrip(last);
    if |d| == 1 {
      SingleDigitValue(d);
      assert d == [last];
    } else {
      var p := d[..|d| - 1];
      LeadingDigitPositive(p);
      NatDigitsOfValue(p);
      var n := DigitsValue(d);
      assert n == 10 * DigitsValue(p) + DigitValue(last);
      assert n / 10 == DigitsValue(p) && n % 10 == DigitValue(last);
      assert NatDigits(n) == NatDigits(n / 10) + [DigitChar(n % 10)];
      assert d == p + [last];
    }
  }

  /**
   Parsing a literal and printing the value back gives the literal without
   its plus sign and leading zeros: the inverse of ParseLongOfDecimalString.
   */
  lemma {:induction false} ParseLongPrintsBack(s: string)
    requires ParseLong(s).Number?
    ensures DecimalString(ParseLong(s).value) == CanonicalLiteral(s)
  {
    var m := Magnitude(s);
    var d := StripZeros(m);
    StripZerosValue(m);
    NatDigitsOfValue(d);
    if d != "0" {
      assert |d| == 1 ==> d == [d[0]];
      LeadingDigitPositive(d);
    }
  }

  predicate HasDigit(s: string) { exists i | 0 <= i < |s| :: IsDigit(s[i]) }

  /** Every integer literal holds a decimal digit (as does every number in any other form the creatable-number test accepts). */
  lemma {:induction false} LiteralHasDigit(s: string)
    ensures IsIntegerLiteral(s) ==> HasDigit(s)
  {
    if IsIntegerLiteral(s) {
      var m := Magnitude(s);
      if m == s {
        assert IsDigit(s[0]);
      } else {
        assert s[1] == m[0] && IsDigit(s[1]);
      }
    }
  }

  /** A leading plus sign is accepted and changes nothing. */
  lemma {:induction false} ParseLongPlusSign(d: string)
    requires d == [] || d[0] !in "+-"
    ensures ParseLong("+" + d) == (if d == [] then NotNumeric else ParseLong(d))
  {
    assert ("+" + d)[1..] == d;
  }

  /** Octal-looking literals: a 0 followed by 8 or 9 is rejected, one followed by octal digits is read in decimal. */
  lemma {:induction false} OctalLookingLiterals()
    ensures ParseLong("08") == NotNumeric
    ensures ParseLong("-09") == NotNumeric
    ensures ParseLong("010") == Number(10)
    ensures ParseLong("0") == Number(0)
  {
    assert DigitsValue("01") == 1;
    assert "010"[..2] == "01";
  }
}
