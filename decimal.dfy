/** The two conversions between numbers and text that the movie routes use:
    JavaScript's unary plus on a path parameter made of decimal digits
    (`+id`), and the rendering of a number inside a template literal
    (`${id}`). */
module Decimal {

  predicate IsDigit(ch: char) {
    '0' <= ch <= '9'
  }

  /** A non-empty string of decimal digits, the only path ids modelled. */
  predicate IsDecimal(s: string) {
    |s| > 0 && forall i :: 0 <= i < |s| ==> IsDigit(s[i])
  }

  function DigitValue(ch: char): (d: nat)
    requires IsDigit(ch)
    ensures d < 10
  {
    (ch as int) - ('0' as int)
  }

  function DigitChar(d: nat): (ch: char)
    requires d < 10
    ensures IsDigit(ch) && DigitValue(ch) == d
  {
    ('0' as int + d) as char
  }

  /** The value `+s` has for a string of decimal digits (leading zeros are
      ignored, as in JavaScript). */
  function ToNumber(s: string): (n: nat)
    requires IsDecimal(s)
    ensures |s| == 1 ==> n == DigitValue(s[0])
    ensures |s| > 1 && s[0] == '0' ==> IsDecimal(s[1..]) && n == ToNumber(s[1..])
    decreases |s|
  {
    if |s| == 1 then DigitValue(s[0])
    else
      var init := s[..|s| - 1];
      assert IsDecimal(init);
      assert |s| > 2 ==> init[1..] == s[1..][..|s| - 2];
      ToNumber(init) * 10 + DigitValue(s[|s| - 1])
  }

  /** The decimal rendering of a natural number, without leading zeros. */
  function NatToDecimal(n: nat): (s: string)
    ensures IsDecimal(s)
    ensures s[0] == '0' ==> n == 0
    decreases n
  {
    if n < 10 then [DigitChar(n)] else NatToDecimal(n / 10) + [DigitChar(n % 10)]
  }

  /** The rendering of an integer in a template literal. */
  function IntToDecimal(i: int): (s: string)
    ensures |s| > 0
    ensures s[0] == '-' <==> i < 0
    ensures i >= 0 ==> IsDecimal(s) && ToNumber(s) == i
    ensures i < 0 ==> IsDecimal(s[1..]) && ToNumber(s[1..]) == -i
  {
    if i < 0 then
      ToNumberOfDecimal(-i);
      assert ("-" + NatToDecimal(-i))[1..] == NatToDecimal(-i);
      "-" + NatToDecimal(-i)
    else
      ToNumberOfDecimal(i);
      NatToDecimal(i)
  }

  /** Different integers render differently. */
  lemma IntToDecimalInjective(a: int, b: int)
    requires IntToDecimal(a) == IntToDecimal(b)
    ensures a == b
  {
  }

  /** Parsing the rendering of a number gives the number back: a path
      written from a movie's id reaches that movie. */
  lemma {:induction false} ToNumberOfDecimal(n: nat)
    ensures ToNumber(NatToDecimal(n)) == n
  {
    if n >= 10 {
      var s := NatToDecimal(n);
      ToNumberOfDecimal(n / 10);
      assert s[..|s| - 1] == NatToDecimal(n / 10);
      assert s[|s| - 1] == DigitChar(n % 10);
    }
  }

  /** Conversely, a digit string without leading zeros is the rendering
      of the number it denotes. */
  lemma {:induction false} DecimalOfToNumber(s: string)
    requires IsDecimal(s)
    requires s[0] != '0' || |s| == 1
    ensures NatToDecimal(ToNumber(s)) == s
  {
    if |s| > 1 {
      var init := s[..|s| - 1];
      assert IsDecimal(init);
      DecimalOfToNumber(init);
      var n := ToNumber(s);
      ToNumberPositive(init);
      assert n / 10 == ToNumber(init) && n % 10 == DigitValue(s[|s| - 1]);
      assert DigitChar(n % 10) == s[|s| - 1];
      assert s == init + [s[|s| - 1]];
    }
  }

  /** A digit string that does not start with zero denotes a positive number. */
  lemma {:induction false} ToNumberPositive(s: string)
    requires IsDecimal(s) && s[0] != '0'
    ensures ToNumber(s) > 0
  {
    if |s| > 1 {
      var init := s[..|s| - 1];
      assert init[0] == s[0];
      ToNumberPositive(init);
    }
  }
}
