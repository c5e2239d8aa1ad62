/**
 * Decimal text of integers, as written by String.valueOf(int) / Long.toString
 * and read back by Integer.parseInt.  Java's `int` is 32 bits wide, so reading
 * checks the range; writing is defined for every integer.
 */
module Decimal {
  import opened Wrappers

  const INT_MIN: int := -0x8000_0000
  const INT_MAX: int := 0x7fff_ffff

  predicate IsInt32(x: int) {
    INT_MIN <= x <= INT_MAX
  }

  predicate IsDigit(c: char) {
    '0' <= c <= '9'
  }

  predicate AllDigits(s: string) {
    forall i :: 0 <= i < |s| ==> IsDigit(s[i])
  }

  function DigitChar(d: nat): (c: char)
    requires d < 10
    ensures IsDigit(c)
  {
    ('0' as int + d) as char
  }

  function DigitValue(c: char): (d: nat)
    requires IsDigit(c)
    ensures d < 10
  {
    c as int - '0' as int
  }

  /** The digits of `n`, most significant first, without leading zeros. */
  function NatToString(n: nat): (s: string)
    ensures |s| >= 1 && AllDigits(s)
    decreases n
  {
    if n < 10 then [DigitChar(n)] else NatToString(n / 10) + [DigitChar(n % 10)]
  }

  /** String.valueOf(x): a '-' before the digits of a negative number. */
  function IntToString(x: int): string {
    if x < 0 then "-" + NatToString(-x) else NatToString(x)
  }

  /** The value of a string of digits, read most significant first. */
  function DigitsValue(s: string): nat
    requires AllDigits(s)
    decreases |s|
  {
    if s == [] then 0 else DigitsValue(s[..|s| - 1]) * 10 + DigitValue(s[|s| - 1])
  }

  /**
   * Integer.parseInt without its range check, restricted to ASCII digits:
   * an optional '+' or '-' followed by at least one of '0'..'9', and nothing
   * else.  Java also reads the other Unicode decimal digits here.
   */
  function ParseDecimal(s: string): Option<int> {
    if |s| == 0 then None
    else if s[0] == '-' || s[0] == '+' then
      if |s| > 1 && AllDigits(s[1..]) then
        var magnitude: int := DigitsValue(s[1..]);
        Some(if s[0] == '-' then -magnitude else magnitude)
      else None
    else if AllDigits(s) then Some(DigitsValue(s))
    else None
  }

  /** Integer.parseInt: NumberFormatException for bad text or a value outside `int`. */
  function ParseInt(s: string): (r: Result<int>)
    ensures r.Success? ==> IsInt32(r.value) && ParseDecimal(s) == Some(r.value)
    ensures r.Failure? ==> r.error == NumberFormat
  {
    match ParseDecimal(s)
    case Some(v) => if IsInt32(v) then Success(v) else Failure(NumberFormat)
    case None => Failure(NumberFormat)
  }

  /** The empty string and a lone sign are not numbers. */
  lemma ParseIntRejectsEmpty(s: string)
    ensures s == "" ==> ParseInt(s) == Failure(NumberFormat)
    ensures s == "-" || s == "+" ==> ParseInt(s) == Failure(NumberFormat)
  {
  }

  lemma {:induction false} NatToStringRoundTrip(n: nat)
    ensures DigitsValue(NatToString(n)) == n
    decreases n
  {
    if n >= 10 {
      var s := NatToString(n / 10);
      var t := s + [DigitChar(n % 10)];
      assert t[..|t| - 1] == s;
      NatToStringRoundTrip(n / 10);
    }
  }

  /** Reading back what String.valueOf wrote gives the same number, for any integer. */
  lemma ParseDecimalOfIntToString(x: int)
    ensures ParseDecimal(IntToString(x)) == Some(x)
  {
    if x < 0 {
      var s := IntToString(x);
      assert s[1..] == NatToString(-x);
      NatToStringRoundTrip(-x);
    } else {
      var s := NatToString(x);
      assert s[0] != '-' && s[0] != '+' by { assert IsDigit(s[0]); }
      NatToStringRoundTrip(x);
    }
  }

  /** Integer.parseInt(String.valueOf(x)) == x for every 32-bit x. */
  lemma ParseIntOfIntToString(x: int)
    requires IsInt32(x)
    ensures ParseInt(IntToString(x)) == Success(x)
  {
    ParseDecimalOfIntToString(x);
  }

  /**
   * The text of a number is never empty, starts with a digit or '-', and
   * holds only digits after that: in particular it holds no delimiter.
   */
  lemma IntToStringShape(x: int)
    ensures |IntToString(x)| >= 1
    ensures IsDigit(IntToString(x)[0]) || IntToString(x)[0] == '-'
    ensures forall i :: 1 <= i < |IntToString(x)| ==> IsDigit(IntToString(x)[i])
  {
  }
}
