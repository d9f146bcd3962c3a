/** Unsigned decimal numerals: the representation Rust's `Display` writes
    for an unsigned integer, and the value a string of ASCII digits denotes. */
module Decimal {
  import opened Bytes

  /** The decimal numeral for `n`, most significant digit first, with no
      leading zero. */
  function NatToDecimal(n: nat): (s: Bytes)
    ensures |s| >= 1 && AllDigits(s)
    ensures s[0] == '0' ==> n == 0
    ensures n < 10 <==> |s| == 1
  {
    if n < 10 then [DigitByte(n)] else NatToDecimal(n / 10) + [DigitByte(n % 10)]
  }

  /** The value of a string of ASCII digits (0 for the empty string). */
  function DecimalValue(s: Bytes): nat
    requires AllDigits(s)
  {
    if |s| == 0 then 0 else DecimalValue(s[..|s| - 1]) * 10 + DigitValue(s[|s| - 1])
  }

  /** A numeral as the VT6 wire format admits it: at least one digit, and no
      leading zero unless the numeral is exactly "0". */
  predicate Canonical(s: Bytes) {
    |s| >= 1 && AllDigits(s) && (|s| > 1 ==> s[0] != '0')
  }

  function Pow10(k: nat): (p: nat)
    ensures p >= 1
  {
    if k == 0 then 1 else 10 * Pow10(k - 1)
  }

  lemma {:induction false} DecimalRoundTrip(n: nat)
    ensures DecimalValue(NatToDecimal(n)) == n
    decreases n
  {
    if n >= 10 {
      var s := NatToDecimal(n);
      assert s[..|s| - 1] == NatToDecimal(n / 10);
      DecimalRoundTrip(n / 10);
    }
  }

  lemma NatToDecimalIsCanonical(n: nat)
    ensures Canonical(NatToDecimal(n))
  {}

  lemma {:induction false} LeadingDigitBound(s: Bytes)
    requires |s| >= 1 && AllDigits(s)
    ensures DecimalValue(s) >= DigitValue(s[0])
    decreases |s|
  {
    if |s| > 1 {
      var p := s[..|s| - 1];
      assert p[0] == s[0];
      LeadingDigitBound(p);
    }
  }

  /** A canonical numeral is the numeral of its own value: numerals and
      values are in one-to-one correspondence. */
  lemma {:induction false} CanonicalRoundTrip(s: Bytes)
    requires Canonical(s)
    ensures NatToDecimal(DecimalValue(s)) == s
    decreases |s|
  {
    if |s| > 1 {
      var p := s[..|s| - 1];
      assert p[0] == s[0];
      LeadingDigitBound(p);
      CanonicalRoundTrip(p);
      var v := DecimalValue(p);
      var d := DigitValue(s[|s| - 1]);
      assert DecimalValue(s) == v * 10 + d;
      assert (v * 10 + d) / 10 == v && (v * 10 + d) % 10 == d;
      assert s == p + [s[|s| - 1]];
    }
  }

  lemma NatToDecimalInjective(m: nat, n: nat)
    requires NatToDecimal(m) == NatToDecimal(n)
    ensures m == n
  {
    DecimalRoundTrip(m);
    DecimalRoundTrip(n);
  }

  /** Dropping trailing digits never increases the value. */
  lemma {:induction false} PrefixValueBound(s: Bytes, k: nat)
    requires AllDigits(s) && k <= |s|
    ensures DecimalValue(s[..k]) <= DecimalValue(s)
    decreases |s| - k
  {
    if k < |s| {
      var p := s[..|s| - 1];
      assert p[..k] == s[..k];
      PrefixValueBound(p, k);
      assert DecimalValue(s) == DecimalValue(p) * 10 + DigitValue(s[|s| - 1]);
    } else {
      assert s[..k] == s;
    }
  }

  /** A numeral of `k` digits denotes less than 10^k. */
  lemma {:induction false} ValueBound(s: Bytes)
    requires AllDigits(s)
    ensures DecimalValue(s) < Pow10(|s|)
    decreases |s|
  {
    if |s| > 0 {
      ValueBound(s[..|s| - 1]);
    }
  }

  /** The numeral of `n` has `k` digits exactly when 10^(k-1) <= n < 10^k. */
  lemma {:induction false} LengthOfNatToDecimal(n: nat, k: nat)
    requires k >= 1
    ensures |NatToDecimal(n)| == k <==> (k == 1 || Pow10(k - 1) <= n) && n < Pow10(k)
    decreases k
  {
    if k > 1 {
      if n >= 10 {
        LengthOfNatToDecimal(n / 10, k - 1);
      } else {
        assert Pow10(k - 1) >= 10 by { PowMonotone(1, k - 1); }
      }
    }
  }

  lemma {:induction false} PowMonotone(i: nat, j: nat)
    requires i <= j
    ensures Pow10(i) <= Pow10(j)
    decreases j
  {
    if i < j {
      PowMonotone(i, j - 1);
    }
  }
}
