/** Decimal and binary numerals: `parseInt(s, 10)` and `n.toString(2)` as
    conversions between natural numbers and digit strings. */
module Numerals {

  predicate IsDigit(c: char) {
    '0' <= c <= '9'
  }

  /** A non-empty run of decimal digits. */
  predicate IsDecimal(s: string) {
    s != [] && forall i :: 0 <= i < |s| ==> IsDigit(s[i])
  }

  function DigitValue(c: char): (d: nat)
    requires IsDigit(c)
    ensures d < 10
  {
    c as int - '0' as int
  }

  function DigitChar(d: nat): (c: char)
    requires d < 10
    ensures IsDigit(c) && DigitValue(c) == d
  {
    ('0' as int + d) as char
  }

  /** `parseInt(s, 10)` on a string of digits. */
  function DecimalValue(s: string): nat
    requires forall i :: 0 <= i < |s| ==> IsDigit(s[i])
  {
    if s == [] then 0 else 10 * DecimalValue(s[..|s| - 1]) + DigitValue(s[|s| - 1])
  }

  /** The decimal numeral of `n`, without leading zeros. */
  function DecimalString(n: nat): (s: string)
    ensures IsDecimal(s)
    ensures |s| > 1 ==> s[0] != '0'
  {
    if n < 10 then [DigitChar(n)] else DecimalString(n / 10) + [DigitChar(n % 10)]
  }

  lemma {:induction false} DecimalRoundTrip(n: nat)
    ensures DecimalValue(DecimalString(n)) == n
  {
    if n >= 10 {
      DecimalRoundTrip(n / 10);
      var s := DecimalString(n);
      assert s[..|s| - 1] == DecimalString(n / 10);
    }
  }

  predicate IsBits(s: string) {
    forall i :: 0 <= i < |s| ==> s[i] == '0' || s[i] == '1'
  }

  function Pow2(k: nat): (p: nat)
    ensures p >= 1
  {
    if k == 0 then 1 else 2 * Pow2(k - 1)
  }

  lemma Pow2Word()
    ensures Pow2(15) == 32768 && Pow2(16) == 65536
  {
    assert Pow2(1) == 2;
    assert Pow2(2) == 4;
    assert Pow2(3) == 8;
    assert Pow2(4) == 16;
    assert Pow2(5) == 32;
    assert Pow2(6) == 64;
    assert Pow2(7) == 128;
    assert Pow2(8) == 256;
    assert Pow2(9) == 512;
    assert Pow2(10) == 1024;
    assert Pow2(11) == 2048;
    assert Pow2(12) == 4096;
    assert Pow2(13) == 8192;
    assert Pow2(14) == 16384;
    assert Pow2(15) == 32768;
  }

  lemma {:induction false} Pow2Monotone(j: nat, k: nat)
    requires j <= k
    ensures Pow2(j) <= Pow2(k)
  {
    if j < k {
      Pow2Monotone(j, k - 1);
    }
  }

  /** The unsigned value of a string of bits, most significant first. */
  function BitsValue(s: string): (v: nat)
    requires IsBits(s)
  {
    if s == [] then 0 else 2 * BitsValue(s[..|s| - 1]) + (if s[|s| - 1] == '1' then 1 else 0)
  }

  function BitChar(b: nat): (c: char)
    requires b < 2
  {
    if b == 0 then '0' else '1'
  }

  /** `n.toString(2)`: the binary numeral of `n`, without leading zeros. */
  function ToBinary(n: nat): (s: string)
    ensures s != [] && IsBits(s)
    ensures |s| > 1 ==> s[0] == '1'
    ensures |s| == 1 <==> n < 2
  {
    if n < 2 then [BitChar(n)] else ToBinary(n / 2) + [BitChar(n % 2)]
  }

  lemma {:induction false} BinaryRoundTrip(n: nat)
    ensures BitsValue(ToBinary(n)) == n
  {
    if n >= 2 {
      BinaryRoundTrip(n / 2);
      var s := ToBinary(n);
      assert s[..|s| - 1] == ToBinary(n / 2);
    }
  }

  /** The numeral of `n` has exactly as many digits as `n` needs. */
  lemma {:induction false} BinaryLength(n: nat)
    ensures n < Pow2(|ToBinary(n)|)
    ensures n >= 2 ==> Pow2(|ToBinary(n)| - 1) <= n
  {
    if n >= 2 {
      BinaryLength(n / 2);
    }
  }

  /** `n` fits in `k` binary digits exactly when it is below 2 to the `k`. */
  lemma BinaryFits(n: nat, k: nat)
    requires k >= 1
    ensures |ToBinary(n)| <= k <==> n < Pow2(k)
  {
    BinaryLength(n);
    var len := |ToBinary(n)|;
    if len <= k {
      Pow2Monotone(len, k);
    } else {
      Pow2Monotone(k, len - 1);
    }
  }

  function Zeros(k: nat): (s: string)
    ensures |s| == k && IsBits(s)
  {
    if k == 0 then [] else Zeros(k - 1) + ['0']
  }

  lemma {:induction false} ZerosCons(k: nat)
    ensures "0" + Zeros(k) == Zeros(k + 1)
  {
    if k > 0 {
      ZerosCons(k - 1);
      assert "0" + Zeros(k) == ("0" + Zeros(k - 1)) + ['0'];
    }
  }

  /** Leading zeros do not change a binary value. */
  lemma {:induction false} ZerosPrefix(k: nat, s: string)
    requires IsBits(s)
    ensures IsBits(Zeros(k) + s) && BitsValue(Zeros(k) + s) == BitsValue(s)
  {
    var z := Zeros(k);
    assert IsBits(z + s) by {
      forall i | 0 <= i < |z + s| ensures (z + s)[i] == '0' || (z + s)[i] == '1' {
        if i >= |z| { assert (z + s)[i] == s[i - |z|]; }
      }
    }
    if s == [] {
      assert z + s == z;
      ZerosValue(k);
    } else {
      var init := s[..|s| - 1];
      assert (z + s)[..|z + s| - 1] == z + init;
      assert (z + s)[|z + s| - 1] == s[|s| - 1];
      ZerosPrefix(k, init);
    }
  }

  lemma {:induction false} ZerosValue(k: nat)
    ensures BitsValue(Zeros(k)) == 0
  {
    if k > 0 {
      ZerosValue(k - 1);
    }
  }
}
