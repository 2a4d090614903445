/** Decimal notation: the canonical digits of a natural number and their reading. */
module Decimal {
  import opened Powers

  predicate IsDigit(c: char) {
    '0' <= c <= '9'
  }

  predicate AllDigits(s: string) {
    forall i :: 0 <= i < |s| ==> IsDigit(s[i])
  }

  function DigitChar(d: nat): (c: char)
    requires d < 10
    ensures IsDigit(c) && DigitValue(c) == d
  {
    '0' + d as char
  }

  function DigitValue(c: char): (d: nat)
    requires IsDigit(c)
    ensures d < 10
  {
    c as int - '0' as int
  }

  /** The canonical decimal digits of n, most significant first. */
  function Dec(n: nat): (s: string)
    ensures s != [] && AllDigits(s)
  {
    if n < 10 then [DigitChar(n)] else Dec(n / 10) + [DigitChar(n % 10)]
  }

  /** The number a run of digits denotes. */
  function Val(s: string): nat
    requires AllDigits(s)
  {
    if s == [] then 0 else 10 * Val(s[..|s| - 1]) + DigitValue(s[|s| - 1])
  }

  lemma ValSnoc(s: string, c: char)
    requires AllDigits(s) && IsDigit(c)
    ensures AllDigits(s + [c]) && Val(s + [c]) == 10 * Val(s) + DigitValue(c)
  {
    assert (s + [c])[..|s|] == s;
  }

  lemma {:induction false} ValDec(n: nat)
    ensures Val(Dec(n)) == n
  {
    if n >= 10 {
      ValDec(n / 10);
      ValSnoc(Dec(n / 10), DigitChar(n % 10));
    }
  }

  /** Distinct numbers have distinct digits. */
  lemma DecInjective(m: nat, n: nat)
    requires Dec(m) == Dec(n)
    ensures m == n
  {
    ValDec(m);
    ValDec(n);
  }

  /** No leading zero, except in zero itself. */
  lemma {:induction false} DecLeading(n: nat)
    ensures n > 0 ==> Dec(n)[0] != '0'
  {
    if n >= 10 {
      DecLeading(n / 10);
    }
  }

  /** The canonical digits are the one numeral for n that does not begin with a zero it
      could do without. */
  lemma {:induction false} CanonicalDigits(s: string, n: nat)
    requires s != [] && AllDigits(s)
    ensures s == Dec(n) <==> Val(s) == n && (s[0] != '0' || |s| == 1)
    decreases |s|
  {
    DecLeading(n);
    ValDec(n);
    if |s| == 1 {
      OneDigitNumeral(s, n);
    } else if s[0] != '0' && Val(s) == n {
      var k := |s| - 1;
      NumeralAtLeast(s[..k]);
      CanonicalDigits(s[..k], Val(s[..k]));
      assert s == s[..k] + [s[k]];
    }
  }

  lemma OneDigitNumeral(s: string, n: nat)
    requires |s| == 1 && AllDigits(s)
    ensures s == Dec(n) <==> Val(s) == n
  {
    assert Val(s[..0]) == 0;
    ValDec(n);
    if Val(s) == n {
      assert Dec(n) == [DigitChar(n)];
    }
  }

  /** A numeral that does not begin with a zero is positive. */
  lemma {:induction false} NumeralAtLeast(s: string)
    requires s != [] && AllDigits(s) && s[0] != '0'
    ensures Val(s) >= 1
  {
    if |s| > 1 {
      NumeralAtLeast(s[..|s| - 1]);
    }
  }

  /** |Dec(n)| is the number of decimal digits: the one k with 10^(k-1) <= n < 10^k. */
  lemma {:induction false} DecLength(n: nat)
    ensures n < Ten(|Dec(n)|)
    ensures |Dec(n)| > 1 ==> Ten(|Dec(n)| - 1) <= n
  {
    if n >= 10 {
      DecLength(n / 10);
      if |Dec(n / 10)| == 1 {
        assert Ten(1) == 10;
      }
    } else {
      assert Ten(1) == 10;
    }
  }

  lemma DecLengthIs(n: nat, k: nat)
    requires k >= 1 && n < Ten(k) && (k > 1 ==> Ten(k - 1) <= n)
    ensures |Dec(n)| == k
  {
    DecLength(n);
    if |Dec(n)| < k {
      TenMonotone(|Dec(n)|, k - 1);
    } else if |Dec(n)| > k {
      TenMonotone(k, |Dec(n)| - 1);
    }
  }

  /** The last k digits of l, with leading zeros. */
  function Padded(l: nat, k: nat): (s: string)
    ensures |s| == k && AllDigits(s)
  {
    if k == 0 then [] else Padded(l / 10, k - 1) + [DigitChar(l % 10)]
  }
}
