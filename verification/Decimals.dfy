/** Facts about runs of decimal digits that number parsing and number printing both need. */
module Decimals {
  import opened Json
  import opened ReaderSpec

  function Pow10(n: nat): nat {
    if n == 0 then 1 else Pow10(n - 1) * 10
  }

  lemma {:induction false} Pow10Monotone(m: nat, n: nat)
    requires m <= n
    ensures 1 <= Pow10(m) <= Pow10(n)
    decreases n
  {
    if m < n {
      Pow10Monotone(m, n - 1);
    } else if n > 0 {
      Pow10Monotone(m - 1, n - 1);
    }
  }

  lemma {:induction false} Pow10Of17()
    ensures Pow10(17) == 100_000_000_000_000_000
  {
    assert Pow10(3) == 1_000;
    assert Pow10(5) == 100_000;
    assert Pow10(7) == 10_000_000;
    assert Pow10(9) == 1_000_000_000;
    assert Pow10(11) == 100_000_000_000;
    assert Pow10(13) == 10_000_000_000_000;
    assert Pow10(15) == 1_000_000_000_000_000;
  }

  lemma {:induction false} DecimalAppend(s: Bytes, c: Byte)
    requires AllDigits(s) && IsDigit(c)
    ensures AllDigits(s + [c]) && Decimal(s + [c]) == Decimal(s) * 10 + DigitValue(c)
  {
    assert (s + [c])[..|s|] == s;
  }

  /** A run of digits stands for less than the power of ten of its length. */
  lemma {:induction false} DecimalBound(s: Bytes)
    requires AllDigits(s)
    ensures Decimal(s) < Pow10(|s|)
  {
    if s != [] {
      DecimalBound(s[..|s| - 1]);
    }
  }

  lemma {:induction false} DecimalMonotone(s: Bytes, k: nat)
    requires AllDigits(s) && k <= |s|
    ensures Decimal(s[..k]) <= Decimal(s)
  {
    if k == |s| {
      assert s[..k] == s;
    } else {
      assert s[..|s| - 1][..k] == s[..k];
      DecimalMonotone(s[..|s| - 1], k);
    }
  }

  /** Digits that stand for a large number are many. */
  lemma {:induction false} DigitsOfLargeNumber(s: Bytes)
    requires AllDigits(s) && Decimal(s) >= 100_000_000_000_000_000
    ensures |s| >= 18
  {
    DecimalBound(s);
    Pow10Of17();
    if |s| <= 17 {
      Pow10Monotone(|s|, 17);
    }
  }

  lemma {:induction false} JoinDigits(s: Bytes, p: nat, m: nat, q: nat)
    requires p <= m <= q <= |s| && AllDigits(s[p..m]) && AllDigits(s[m..q])
    ensures AllDigits(s[p..q])
  {
    assert s[p..q] == s[p..m] + s[m..q];
  }

  lemma {:induction false} SingleDigit(s: Bytes, p: nat)
    requires p < |s| && IsDigit(s[p])
    ensures AllDigits(s[p..p + 1]) && Decimal(s[p..p + 1]) == DigitValue(s[p])
  {
    DecimalAppend([], s[p]);
    assert s[p..p + 1] == [] + [s[p]];
  }

  lemma {:induction false} NextDigit(s: Bytes, p: nat, q: nat)
    requires p <= q < |s| && AllDigits(s[p..q]) && IsDigit(s[q])
    ensures AllDigits(s[p..q + 1]) && Decimal(s[p..q + 1]) == Decimal(s[p..q]) * 10 + DigitValue(s[q])
  {
    DecimalAppend(s[p..q], s[q]);
    assert s[p..q + 1] == s[p..q] + [s[q]];
  }
}
