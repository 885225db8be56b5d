/** Decimal rendering of lengths, as `format!("{}", n)` writes a `usize`
    into the `Content-Length` field, and the reading a client applies to it
    (section 8.6 of RFC 9110: `Content-Length = 1*DIGIT`). */
module Decimal {

  import opened Optional

  predicate IsDigit(c: char) {
    '0' <= c <= '9'
  }

  predicate AllDigits(s: string) {
    forall c :: c in s ==> IsDigit(c)
  }

  function DigitChar(d: nat): (c: char)
    requires d < 10
    ensures IsDigit(c) && c as int - '0' as int == d
  {
    ('0' as int + d) as char
  }

  function DigitValue(c: char): (d: nat)
    requires IsDigit(c)
    ensures d < 10 && DigitChar(d) == c
  {
    c as int - '0' as int
  }

  /** The shortest decimal numeral of `n`: no sign, no leading zero. */
  function NatToDecimal(n: nat): (s: string)
    ensures |s| > 0 && AllDigits(s)
    ensures |s| > 1 ==> s[0] != '0'
    ensures s == "0" <==> n == 0
    decreases n
  {
    if n < 10 then [DigitChar(n)] else NatToDecimal(n / 10) + [DigitChar(n % 10)]
  }

  /** The value of a string of digits, most significant first. */
  function DigitsValue(s: string): nat
    requires AllDigits(s)
    decreases |s|
  {
    if s == [] then 0 else 10 * DigitsValue(s[..|s| - 1]) + DigitValue(s[|s| - 1])
  }

  /** A `Content-Length` value as a recipient reads it: one or more digits,
      anything else rejected. */
  function ParseDecimal(s: string): (r: Option<nat>)
    ensures r.Some? <==> |s| > 0 && AllDigits(s)
  {
    if |s| > 0 && AllDigits(s) then Some(DigitsValue(s)) else None
  }

  /** Every length the server renders reads back as the same length. */
  lemma {:induction false} DecimalRoundTrip(n: nat)
    ensures ParseDecimal(NatToDecimal(n)) == Some(n)
    decreases n
  {
    if n >= 10 {
      DecimalRoundTrip(n / 10);
      var s := NatToDecimal(n);
      assert s[..|s| - 1] == NatToDecimal(n / 10);
      assert DigitValue(s[|s| - 1]) == n % 10;
      assert DigitsValue(s) == 10 * (n / 10) + n % 10;
    }
  }

  /** Conversely, every numeral without a leading zero is the rendering of
      the value it denotes, so rendering is a bijection onto such numerals. */
  lemma {:induction false} DecimalCanonical(s: string)
    requires |s| > 0 && AllDigits(s) && (|s| > 1 ==> s[0] != '0')
    ensures NatToDecimal(DigitsValue(s)) == s
    decreases |s|
  {
    if |s| > 1 {
      var init := s[..|s| - 1];
      assert init[0] == s[0];
      DecimalCanonical(init);
      var v := DigitsValue(init);
      assert v != 0 by {
        assert NatToDecimal(v) == init && init != "0";
      }
    }
  }

}
