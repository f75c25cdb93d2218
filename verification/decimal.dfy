/** Decimal formatting of integers as Go's `%d` verb prints them: an optional
    minus sign followed by the digits, without leading zeros. */
module Decimal {

  predicate IsDigit(ch: char) {
    '0' <= ch <= '9'
  }

  predicate AllDigits(s: string) {
    forall i :: 0 <= i < |s| ==> IsDigit(s[i])
  }

  function DigitChar(d: int): (ch: char)
    requires 0 <= d < 10
    ensures IsDigit(ch)
  {
    ('0' as int + d) as char
  }

  function DigitValue(ch: char): (d: int)
    requires IsDigit(ch)
    ensures 0 <= d < 10 && DigitChar(d) == ch
  {
    ch as int - '0' as int
  }

  function Pow10(k: nat): (p: nat)
    ensures p >= 1
  {
    if k == 0 then 1 else 10 * Pow10(k - 1)
  }

  /** The decimal digits of a natural number, most significant first. */
  function NatToDecimal(n: nat): (s: string)
    ensures |s| >= 1 && AllDigits(s)
    ensures s[0] == '0' ==> n == 0
    ensures n < Pow10(|s|)
    ensures |s| >= 2 ==> Pow10(|s| - 1) <= n
  {
    if n < 10 then [DigitChar(n)] else NatToDecimal(n / 10) + [DigitChar(n % 10)]
  }

  /** Go's `fmt.Sprintf("%d", n)`. */
  function IntToDecimal(n: int): (s: string)
    ensures |s| >= 1
    ensures n >= 0 <==> IsDigit(s[0])
    ensures n < 0 <==> s[0] == '-'
  {
    if n < 0 then "-" + NatToDecimal(-n) else NatToDecimal(n)
  }

  /** Reads a string of digits back as a number (the inverse of NatToDecimal). */
  function ParseNat(s: string): nat
    requires AllDigits(s)
  {
    if |s| == 0 then 0 else 10 * ParseNat(s[..|s| - 1]) + DigitValue(s[|s| - 1])
  }

  function ParseInt(s: string): int
    requires |s| >= 1
    requires s[0] == '-' || IsDigit(s[0])
    requires AllDigits(s[1..])
  {
    if s[0] == '-' then -(ParseNat(s[1..]) as int) else ParseNat(s)
  }

  lemma {:induction false} NatToDecimalRoundTrip(n: nat)
    ensures ParseNat(NatToDecimal(n)) == n
  {
    var s := NatToDecimal(n);
    if n >= 10 {
      NatToDecimalRoundTrip(n / 10);
      assert s[..|s| - 1] == NatToDecimal(n / 10);
    }
  }

  /** Formatting then parsing gives back the number: `%d` loses nothing. */
  lemma IntToDecimalRoundTrip(n: int)
    ensures IsDigit(IntToDecimal(n)[0]) || IntToDecimal(n)[0] == '-'
    ensures AllDigits(IntToDecimal(n)[1..])
    ensures ParseInt(IntToDecimal(n)) == n
  {
    var s := IntToDecimal(n);
    if n < 0 {
      assert s[1..] == NatToDecimal(-n);
      NatToDecimalRoundTrip(-n);
    } else {
      NatToDecimalRoundTrip(n);
    }
  }

  /** Formatting is injective. */
  lemma IntToDecimalInjective(a: int, b: int)
    requires IntToDecimal(a) == IntToDecimal(b)
    ensures a == b
  {
    IntToDecimalRoundTrip(a);
    IntToDecimalRoundTrip(b);
  }

  lemma DivMod10(x: int, r: int)
    requires 0 <= r < 10
    ensures (10 * x + r) / 10 == x && (10 * x + r) % 10 == r
  {
  }

  /** Putting a leading digit `d` in front of the decimal form of `q` gives the
      decimal form of `d * 10^k + q`, where k is the digit count of `q`. */
  lemma {:induction false} PrependDigit(d: int, q: nat)
    requires 1 <= d <= 9
    ensures NatToDecimal(d * Pow10(|NatToDecimal(q)|) + q) == [DigitChar(d)] + NatToDecimal(q)
  {
    var k := |NatToDecimal(q)|;
    var n := d * Pow10(k) + q;
    if q < 10 {
      assert k == 1;
      assert n == 10 * d + q;
      DivMod10(d, q);
    } else {
      var x := d * Pow10(k - 1) + q / 10;
      assert |NatToDecimal(q / 10)| == k - 1;
      ShiftDigit(d, q, k);
      DivMod10(x, q % 10);
      PrependDigit(d, q / 10);
      calc {
        NatToDecimal(n);
        NatToDecimal(x) + [DigitChar(q % 10)];
        [DigitChar(d)] + NatToDecimal(q / 10) + [DigitChar(q % 10)];
        [DigitChar(d)] + NatToDecimal(q);
      }
    }
  }

  /** The arithmetic step of PrependDigit: dropping the last digit of
      `d * 10^k + q` leaves `d * 10^(k-1) + q / 10`. */
  lemma ShiftDigit(d: int, q: nat, k: nat)
    requires 1 <= d <= 9 && k >= 1
    ensures d * Pow10(k) + q == 10 * (d * Pow10(k - 1) + q / 10) + q % 10
    ensures d * Pow10(k - 1) + q / 10 >= 1
  {
    var p := Pow10(k - 1);
    assert Pow10(k) == 10 * p;
    assert d * (10 * p) == 10 * (d * p);
    assert d * p >= p;
  }

  /** Appending a digit `d` to the decimal form of a positive `a` gives the
      decimal form of `10 * a + d`. */
  lemma AppendDigit(a: nat, d: int)
    requires a >= 1 && 0 <= d <= 9
    ensures NatToDecimal(10 * a + d) == NatToDecimal(a) + [DigitChar(d)]
  {
    DivMod10(a, d);
  }
}
