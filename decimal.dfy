/**
 * Decimal numerals, as JavaScript's String(n) writes a whole number, and
 * String.prototype.padStart with the fill character '0'.
 */
module Decimal {

  predicate IsDigit(c: char) {
    '0' <= c <= '9'
  }

  predicate AllDigits(s: string) {
    forall i :: 0 <= i < |s| ==> IsDigit(s[i])
  }

  function DigitChar(d: nat): (c: char)
    requires d < 10
    ensures IsDigit(c) && DigitValue(c) == d
  {
    ('0' as int + d) as char
  }

  function DigitValue(c: char): int {
    c as int - '0' as int
  }

  function Pow10(k: nat): (p: nat)
    ensures p >= 1
  {
    if k == 0 then 1 else 10 * Pow10(k - 1)
  }

  /** String(n) for a non-negative whole number: its shortest decimal numeral. */
  function NatToString(n: nat): (r: string)
    ensures 0 < |r| && AllDigits(r)
    ensures r[0] == '0' ==> n == 0 && |r| == 1
  {
    (if n < 10 then "" else NatToString(n / 10)) + [DigitChar(n % 10)]
  }

  /** String(i) for a whole number of either sign. */
  function IntToString(i: int): (r: string)
    ensures 0 < |r|
    ensures forall k :: 0 <= k < |r| ==> IsDigit(r[k]) || r[k] == '-'
    ensures r[0] == '-' <==> i < 0
    ensures i < 0 ==> AllDigits(r[1..])
    ensures 0 <= i ==> AllDigits(r)
    ensures 0 <= i && r[0] == '0' ==> i == 0
    ensures i == 0 ==> r == "0"
    ensures i < 0 ==> 1 < |r| && r[1] != '0'
  {
    if i < 0 then "-" + NatToString(-i) else NatToString(i)
  }

  /** The number a string of decimal digits denotes (most significant digit first). */
  function Value(s: string): (v: int)
    ensures AllDigits(s) ==> 0 <= v < Pow10(|s|)
  {
    if s == [] then 0 else Value(s[..|s| - 1]) * 10 + DigitValue(s[|s| - 1])
  }

  /** Reads back a numeral written by IntToString. */
  function ParseInt(s: string): int {
    if 0 < |s| && s[0] == '-' then -Value(s[1..]) else Value(s)
  }

  function Zeros(k: nat): (z: string)
    ensures |z| == k && AllDigits(z)
    ensures forall i :: 0 <= i < k ==> z[i] == '0'
  {
    seq(k, _ => '0')
  }

  /** s.padStart(width, '0'). */
  function PadStart(s: string, width: nat): (r: string)
    ensures |r| == if |s| < width then width else |s|
    ensures r[|r| - |s|..] == s
    ensures forall i :: 0 <= i < |r| - |s| ==> r[i] == '0'
    ensures AllDigits(s) ==> AllDigits(r) && Value(r) == Value(s)
  {
    if |s| < width then
      LeadingZeros(width - |s|, s);
      Zeros(width - |s|) + s
    else
      s
  }

  lemma DigitsOnly(s: string)
    requires AllDigits(s)
    ensures forall c :: c in s ==> IsDigit(c)
  {
  }

  lemma {:induction false} ValueOfNatToString(n: nat)
    ensures Value(NatToString(n)) == n
  {
    var r := NatToString(n);
    assert r[..|r| - 1] == if n < 10 then "" else NatToString(n / 10);
    if n >= 10 {
      ValueOfNatToString(n / 10);
    }
  }

  lemma {:induction false} IntToStringRoundTrip(i: int)
    ensures ParseInt(IntToString(i)) == i
  {
    if i < 0 {
      ValueOfNatToString(-i);
      SignedNumeral(IntToString(i), NatToString(-i), -i);
    } else {
      ValueOfNatToString(i);
    }
  }

  lemma SignedNumeral(s: string, digits: string, n: nat)
    requires s == "-" + digits && Value(digits) == n
    ensures ParseInt(s) == -(n as int)
  {
    assert s[1..] == digits;
  }

  /** Zeros in front of a numeral do not change its value. */
  lemma {:induction false} LeadingZeros(k: nat, s: string)
    ensures Value(Zeros(k) + s) == Value(s)
  {
    if k == 0 {
      assert Zeros(k) + s == s;
    } else {
      assert Zeros(k) + s == ['0'] + (Zeros(k - 1) + s);
      LeadingZero(Zeros(k - 1) + s);
      LeadingZeros(k - 1, s);
    }
  }

  lemma {:induction false} LeadingZero(s: string)
    ensures Value(['0'] + s) == Value(s)
    decreases |s|
  {
    if s != [] {
      assert (['0'] + s)[..|s|] == ['0'] + s[..|s| - 1];
      LeadingZero(s[..|s| - 1]);
    }
  }

  /** A number below 10^k has a numeral of at most k digits. */
  lemma {:induction false} NatToStringFits(n: nat, k: nat)
    requires 0 < k && n < Pow10(k)
    ensures |NatToString(n)| <= k
  {
    if n >= 10 {
      NatToStringFits(n / 10, k - 1);
    }
  }
}
