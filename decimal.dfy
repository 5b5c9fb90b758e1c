/** Decimal rendering of an int, as String.valueOf(int), Integer.toString and string
    concatenation with an int produce it: an optional '-' and the digits, no leading zeros. */
module Decimal {

  predicate IsDigit(c: char) { '0' <= c <= '9' }

  function DigitChar(d: nat): (c: char)
    requires d < 10
  {
    "0123456789"[d]
  }

  function DigitValue(c: char): int { c as int - '0' as int }

  /** The digits of n, most significant first. */
  function NatToString(n: nat): string
    decreases n
  {
    if n < 10 then [DigitChar(n)] else NatToString(n / 10) + [DigitChar(n % 10)]
  }

  /** String.valueOf(int). */
  function ValueOf(n: int): string
  {
    if n < 0 then "-" + NatToString(-n) else NatToString(n)
  }

  /** The number a string of digits denotes. */
  function DigitsValue(s: string): int
  {
    if s == [] then 0 else DigitsValue(s[..|s| - 1]) * 10 + DigitValue(s[|s| - 1])
  }

  lemma DigitCharValue(d: nat)
    requires d < 10
    ensures IsDigit(DigitChar(d)) && DigitValue(DigitChar(d)) == d
    ensures DigitChar(d) == '0' <==> d == 0
  {
  }

  /** The rendering of a natural number is a non-empty run of digits without a leading zero
      (except for 0 itself) that reads back as the number. */
  lemma {:induction false} NatToStringRoundTrip(n: nat)
    ensures NatToString(n) != []
    ensures forall i :: 0 <= i < |NatToString(n)| ==> IsDigit(NatToString(n)[i])
    ensures NatToString(n)[0] == '0' <==> n == 0
    ensures DigitsValue(NatToString(n)) == n
  {
    DigitCharValue(n % 10);
    if n >= 10 {
      NatToStringRoundTrip(n / 10);
      var init, last := NatToString(n / 10), DigitChar(n % 10);
      var s := init + [last];
      assert NatToString(n) == s;
      assert s[..|s| - 1] == init && s[|s| - 1] == last && s[0] == init[0];
      assert forall i :: 0 <= i < |init| ==> s[i] == init[i];
      assert DigitsValue(s) == DigitsValue(init) * 10 + DigitValue(last);
    }
  }

  /** Different ints render differently, so the rendering can be read back. */
  lemma ValueOfInjective(a: int, b: int)
    ensures ValueOf(a) == ValueOf(b) ==> a == b
  {
    if ValueOf(a) == ValueOf(b) {
      NatToStringRoundTrip(if a < 0 then -a else a);
      NatToStringRoundTrip(if b < 0 then -b else b);
      if a < 0 && b < 0 {
        assert ValueOf(a)[1..] == NatToString(-a);
        assert ValueOf(b)[1..] == NatToString(-b);
      }
    }
  }
}
