/** Numbers as strings of decimal digits. */
module Decimals {

  predicate IsDigit(c: char) {
    '0' <= c <= '9'
  }

  predicate AllDigits(s: string) {
    forall i :: 0 <= i < |s| ==> IsDigit(s[i])
  }

  function Figure(d: nat): (c: char)
    requires d < 10
    ensures IsDigit(c)
  {
    ('0' as int + d) as char
  }

  /** The number that digits stand for, the last one counting ones. */
  function NumberOf(s: string): (n: int)
    ensures AllDigits(s) ==> n >= 0
  {
    if s == "" then 0 else 10 * NumberOf(s[..|s| - 1]) + (s[|s| - 1] as int - '0' as int)
  }

  /** The digits of a number. */
  function Decimal(n: nat): (s: string)
    ensures s != "" && AllDigits(s)
  {
    if n < 10 then [Figure(n)] else Decimal(n / 10) + [Figure(n % 10)]
  }

  function Power10(k: nat): (p: nat)
    ensures p > 0
  {
    if k == 0 then 1 else 10 * Power10(k - 1)
  }

  function Zeros(k: nat): (s: string)
    ensures |s| == k && forall i :: 0 <= i < k ==> s[i] == '0'
  {
    seq(k, i => '0')
  }

  lemma {:induction false} NumberOfDecimal(n: nat)
    ensures NumberOf(Decimal(n)) == n
  {
    if n >= 10 {
      NumberOfDecimal(n / 10);
      assert Decimal(n)[..|Decimal(n)| - 1] == Decimal(n / 10);
    }
  }

  /** Digits behind others push these up by a power of ten each. */
  lemma {:induction false} NumberConcat(s: string, t: string)
    ensures NumberOf(s + t) == NumberOf(s) * Power10(|t|) + NumberOf(t)
    decreases |t|
  {
    if t == "" {
      assert s + t == s;
    } else {
      var front := t[..|t| - 1];
      assert (s + t)[..|s + t| - 1] == s + front;
      NumberConcat(s, front);
      TenTimes(NumberOf(s), Power10(|front|), NumberOf(front));
    }
  }

  lemma TenTimes(v: int, p: int, w: int)
    ensures 10 * (v * p + w) == v * (10 * p) + 10 * w
  {
    assert 10 * (v * p) == v * (10 * p);
  }

  lemma {:induction false} NumberOfZeros(k: nat)
    ensures NumberOf(Zeros(k)) == 0
  {
    if k > 0 {
      assert Zeros(k)[..k - 1] == Zeros(k - 1);
      NumberOfZeros(k - 1);
    }
  }

  /** Zeros in front change nothing. */
  lemma LeadingZeros(k: nat, s: string)
    ensures NumberOf(Zeros(k) + s) == NumberOf(s)
  {
    NumberConcat(Zeros(k), s);
    NumberOfZeros(k);
  }

  /** A power of ten is a one and zeros. */
  lemma OneAndZeros(k: nat)
    ensures NumberOf("1" + Zeros(k)) == Power10(k)
  {
    NumberConcat("1", Zeros(k));
    NumberOfZeros(k);
    assert "1"[..0] == "";
  }

  /** All ten digits in place. */
  lemma TenDigits()
    ensures Decimal(1234567890) == "1234567890" && NumberOf("1234567890") == 1234567890
  {
    assert Decimal(1) == "1";
    assert Decimal(12) == "12";
    assert Decimal(123) == "123";
    assert Decimal(1234) == "1234";
    assert Decimal(12345) == "12345";
    assert Decimal(123456) == "123456";
    assert Decimal(1234567) == "1234567";
    assert Decimal(12345678) == "12345678";
    assert Decimal(123456789) == "123456789";
    NumberOfDecimal(1234567890);
  }
}
