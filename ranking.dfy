/**
 * The `service.ranking` property of a service reference and how ServiceSupplier.parseRanking
 * turns it into a Java `int`. Integer.parseInt is modelled as plain decimal parsing: an optional
 * sign, at least one ASCII digit, and a value inside the 32-bit range; anything else fails, and a
 * failure (like a missing property) yields 0.
 */
module Ranking {
  import opened Wrappers

  const MinInt: int := -0x8000_0000
  const MaxInt: int := 0x7fff_ffff

  /** A Java `int`. */
  type int32 = x: int | MinInt <= x <= MaxInt

  /** The value of the ranking property as the registry hands it over. */
  datatype Property =
    | Missing                     // the property is absent: `null`
    | IntegerValue(value: int32)  // a java.lang.Integer
    | OtherValue(text: string)    // any other object, seen through its toString()

  predicate IsDigit(c: char) {
    '0' <= c <= '9'
  }

  predicate AllDigits(s: string) {
    forall i :: 0 <= i < |s| ==> IsDigit(s[i])
  }

  function DigitValue(c: char): nat
    requires IsDigit(c)
  {
    c as int - '0' as int
  }

  /** The number a string of decimal digits denotes, most significant digit first. */
  function DigitsValue(s: string): nat
    requires AllDigits(s)
  {
    if |s| == 0 then 0 else DigitsValue(s[..|s| - 1]) * 10 + DigitValue(s[|s| - 1])
  }

  predicate HasSign(s: string) {
    |s| > 0 && (s[0] == '-' || s[0] == '+')
  }

  /** The digits part of a numeral: everything after an optional leading sign. */
  function Magnitude(s: string): string {
    if HasSign(s) then s[1..] else s
  }

  /** The shape Integer.parseInt accepts: an optional sign followed by at least one digit. */
  predicate IsNumeral(s: string) {
    |Magnitude(s)| > 0 && AllDigits(Magnitude(s))
  }

  /** The (unbounded) value of a numeral. */
  function NumeralValue(s: string): int
    requires IsNumeral(s)
  {
    if s[0] == '-' then -(DigitsValue(Magnitude(s)) as int) else DigitsValue(Magnitude(s))
  }

  /** Integer.parseInt: the value of a numeral that fits in an `int`; None where Java throws. */
  function ParseInt(s: string): Option<int32> {
    if IsNumeral(s) && MinInt <= NumeralValue(s) <= MaxInt then Some(NumeralValue(s)) else None
  }

  /** ServiceSupplier.parseRanking: never fails; a missing or unparsable ranking counts as 0. */
  function ParseRanking(p: Property): (r: int32)
    ensures p.IntegerValue? ==> r == p.value
    ensures p.Missing? ==> r == 0
    ensures p.OtherValue? && !IsNumeral(p.text) ==> r == 0
    ensures p.OtherValue? && IsNumeral(p.text) && !(MinInt <= NumeralValue(p.text) <= MaxInt) ==> r == 0
    ensures p.OtherValue? && IsNumeral(p.text) && MinInt <= NumeralValue(p.text) <= MaxInt ==>
      r == NumeralValue(p.text)
  {
    match p
    case IntegerValue(v) => v
    case Missing => 0  // o.toString() throws NullPointerException, which the catch swallows
    case OtherValue(text) => if ParseInt(text).Some? then ParseInt(text).value else 0
  }

  // ----- Integer.toString, the inverse direction -----

  function DigitChar(d: nat): (c: char)
    requires d < 10
    ensures IsDigit(c) && DigitValue(c) == d
  {
    ('0' as int + d) as char
  }

  /** The decimal digits of a natural number, without leading zeros. */
  function NatDigits(n: nat): string
    decreases n
  {
    if n < 10 then [DigitChar(n)] else NatDigits(n / 10) + [DigitChar(n % 10)]
  }

  /** Integer.toString: a minus sign for negative values, then the digits. */
  function Decimal(n: int): string {
    if n < 0 then "-" + NatDigits(-n) else NatDigits(n)
  }

  lemma {:induction false} NatDigitsValue(n: nat)
    ensures |NatDigits(n)| > 0 && AllDigits(NatDigits(n))
    ensures DigitsValue(NatDigits(n)) == n
    ensures NatDigits(n)[0] != '-' && NatDigits(n)[0] != '+'
    decreases n
  {
    if n >= 10 {
      NatDigitsValue(n / 10);
      var s := NatDigits(n);
      assert s[..|s| - 1] == NatDigits(n / 10);
    }
  }

  /** Parsing what Integer.toString prints gives the number back, for every `int`. */
  lemma ParseDecimal(n: int32)
    ensures IsNumeral(Decimal(n))
    ensures ParseInt(Decimal(n)) == Some(n)
  {
    var s := Decimal(n);
    if n < 0 {
      var m: nat := -(n as int);
      NatDigitsValue(m);
      assert s == "-" + NatDigits(m);
      assert HasSign(s) && s[0] == '-';
      assert Magnitude(s) == NatDigits(m);
      assert NumeralValue(s) == -(m as int);
    } else {
      NatDigitsValue(n);
      assert s == NatDigits(n) && !HasSign(s);
      assert Magnitude(s) == NatDigits(n);
      assert NumeralValue(s) == n;
    }
  }

  /** A ranking written as a decimal string ranks exactly as the number it names. */
  lemma RankingOfDecimalText(n: int32)
    ensures ParseRanking(OtherValue(Decimal(n))) == n
    ensures ParseRanking(OtherValue(Decimal(n))) == ParseRanking(IntegerValue(n))
  {
    ParseDecimal(n);
  }

  /**
   * Text that is not how Integer.toString writes a number still parses as Integer.parseInt
   * reads it: a plus sign and leading zeros are accepted, "-0" is zero, and surrounding
   * blanks make the whole ranking fall back to 0.
   */
  lemma NonCanonicalRankings()
    ensures ParseRanking(OtherValue("+5")) == 5
    ensures ParseRanking(OtherValue("007")) == 7
    ensures ParseRanking(OtherValue("-0")) == 0
    ensures ParseRanking(OtherValue(" 5")) == 0
  {
    assert "007"[..2] == "00" && "00"[..1] == "0";
  }

  /** A string with a character that is neither a digit nor a leading sign never parses. */
  lemma StrayCharacterRejected(s: string, i: nat)
    requires i < |s| && !IsDigit(s[i])
    requires i > 0 || (s[0] != '-' && s[0] != '+')
    ensures ParseInt(s) == None
    ensures ParseRanking(OtherValue(s)) == 0
  {
  }
}
