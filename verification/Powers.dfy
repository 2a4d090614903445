/** Powers of two and of ten: natural ones, and real ones for any exponent. */
module Powers {

  function Two(n: nat): (p: nat)
    ensures p > 0
  {
    if n == 0 then 1 else 2 * Two(n - 1)
  }

  lemma {:induction false} TwoAdd(m: nat, n: nat)
    ensures Two(m + n) == Two(m) * Two(n)
  {
    if m > 0 {
      TwoAdd(m - 1, n);
      MulAssoc(2, Two(m - 1), Two(n));
    }
  }

  lemma TwoLess(m: nat, n: nat)
    requires Two(m) < Two(n)
    ensures m < n
  {
    if m >= n {
      TwoMonotone(n, m);
    }
  }

  lemma {:induction false} TwoMonotone(m: nat, n: nat)
    requires m <= n
    ensures Two(m) <= Two(n)
  {
    if m < n {
      TwoMonotone(m, n - 1);
    }
  }

  function Ten(n: nat): (p: nat)
    ensures p > 0
  {
    if n == 0 then 1 else 10 * Ten(n - 1)
  }

  lemma {:induction false} TenAdd(m: nat, n: nat)
    ensures Ten(m + n) == Ten(m) * Ten(n)
  {
    if m > 0 {
      TenAdd(m - 1, n);
      MulAssoc(10, Ten(m - 1), Ten(n));
    }
  }

  lemma TenLess(m: nat, n: nat)
    requires Ten(m) < Ten(n)
    ensures m < n
  {
    if m >= n {
      TenMonotone(n, m);
    }
  }

  lemma {:induction false} TenMonotone(m: nat, n: nat)
    requires m <= n
    ensures Ten(m) <= Ten(n)
  {
    if m < n {
      TenMonotone(m, n - 1);
    }
  }

  /** A product that the proofs below keep folded. */
  function Times(x: real, y: real): (r: real)
    ensures x > 0.0 && y > 0.0 ==> r > 0.0
  {
    x * y
  }

  lemma TimesSwap(x: real, y: real, z: real)
    ensures Times(x, Times(y, z)) == Times(y, Times(x, z))
    ensures Times(Times(x, y), z) == Times(x, Times(y, z))
    ensures Times(x, y) == Times(y, x) && Times(x, 1.0) == x
  {
  }

  lemma TimesInverse(base: real, p: real)
    requires base > 0.0
    ensures Times(base, Times(1.0 / base, p)) == p
  {
    Reciprocal(base);
    RMulAssoc(base, 1.0 / base, p);
  }

  /** The base to the power e, for negative e too. */
  function RPower(base: real, e: int): (r: real)
    requires base > 0.0
    ensures r > 0.0
    decreases if e < 0 then -e else e
  {
    if e == 0 then 1.0
    else if e > 0 then Times(base, RPower(base, e - 1))
    else Times(1.0 / base, RPower(base, e + 1))
  }

  lemma PowerStep(base: real, e: int)
    requires base > 0.0
    ensures RPower(base, e + 1) == Times(base, RPower(base, e))
  {
    if e < 0 {
      TimesInverse(base, RPower(base, e + 1));
    }
    hide Times;
  }

  lemma {:induction false} PowerAddNat(base: real, x: int, n: nat)
    requires base > 0.0
    ensures RPower(base, x + n) == Times(RPower(base, x), RPower(base, n))
  {
    hide Times;
    if n == 0 {
      TimesSwap(RPower(base, x), 1.0, 1.0);
    } else {
      PowerAddNat(base, x, n - 1);
      PowerStep(base, x + (n - 1));
      PowerStep(base, n - 1);
      hide RPower;
      TimesSwap(base, RPower(base, x), RPower(base, n - 1));
    }
  }

  lemma PowerInverse(base: real, e: int)
    requires base > 0.0
    ensures Times(RPower(base, e), RPower(base, -e)) == 1.0
  {
    assert RPower(base, 0) == 1.0;
    hide RPower, Times;
    TimesSwap(RPower(base, e), RPower(base, -e), 1.0);
    if e >= 0 {
      PowerAddNat(base, -e, e);
    } else {
      PowerAddNat(base, e, -e);
    }
  }

  lemma PowerAdd(base: real, x: int, y: int)
    requires base > 0.0
    ensures RPower(base, x + y) == Times(RPower(base, x), RPower(base, y))
  {
    hide RPower, Times;
    if y >= 0 {
      PowerAddNat(base, x, y);
    } else {
      // x + y and -y add up to x, and the powers of y and -y cancel
      PowerAddNat(base, x + y, -y);
      PowerInverse(base, y);
      TimesSwap(RPower(base, x + y), RPower(base, -y), RPower(base, y));
      TimesSwap(RPower(base, -y), RPower(base, y), 1.0);
      TimesSwap(RPower(base, x + y), 1.0, 1.0);
    }
  }

  /** 2 to the power e, for negative e too. */
  function RTwo(e: int): (r: real)
    ensures r > 0.0
  {
    RPower(2.0, e)
  }

  lemma {:induction false} RTwoNat(n: nat)
    ensures RTwo(n) == Two(n) as real
  {
    if n > 0 {
      RTwoNat(n - 1);
    }
  }

  lemma RTwoStep(e: int)
    ensures RTwo(e + 1) == 2.0 * RTwo(e)
  {
    hide RPower;
    PowerStep(2.0, e);
  }

  lemma RTwoAdd(x: int, y: int)
    ensures RTwo(x + y) == RTwo(x) * RTwo(y)
  {
    hide RPower;
    PowerAdd(2.0, x, y);
  }

  /** 10 to the power e, for negative e too. */
  function RTen(e: int): (r: real)
    ensures r > 0.0
  {
    RPower(10.0, e)
  }

  lemma {:induction false} RTenNat(n: nat)
    ensures RTen(n) == Ten(n) as real
  {
    if n > 0 {
      RTenNat(n - 1);
    }
  }

  lemma RTenInverse(e: int)
    ensures RTen(e) * RTen(-e) == 1.0
  {
    hide RPower;
    PowerInverse(10.0, e);
  }

  lemma RTenAdd(x: int, y: int)
    ensures RTen(x + y) == RTen(x) * RTen(y)
  {
    hide RPower;
    PowerAdd(10.0, x, y);
  }

  // The exponents below are bracketed, not written out: a literal exponent
  // would be unrolled factor by factor.

  lemma Two8(n: nat)
    requires 7 < n < 9
    ensures Two(n) == 256
  {
    assert Two(n - 2) == 64 by {
      assert Two(n - 4) == 16 by {
        assert Two(n - 6) == 4;
      }
    }
  }

  lemma Two32(n: nat)
    requires 31 < n < 33
    ensures Two(n) == 0x1_0000_0000
  {
    var q, h := n / 4, n / 2;
    Two8(q);
    TwoAdd(q, q);
    TwoAdd(h, h);
  }

  lemma Two64(n: nat)
    requires 63 < n < 65
    ensures Two(n) == 0x1_0000_0000_0000_0000
  {
    var h := n / 2;
    Two32(h);
    TwoAdd(h, h);
  }

  // ----- Multiplication facts the proofs above and elsewhere lean on -----------

  lemma MulAssoc(x: int, y: int, z: int)
    ensures x * (y * z) == (x * y) * z
  {
  }

  lemma MulMonotone(x: int, y: int, k: int)
    requires x <= y && 0 <= k
    ensures x * k <= y * k && k * x <= k * y
  {
    assert 0 <= (y - x) * k;
  }

  lemma RealMul(p: int, q: int)
    ensures (p * q) as real == p as real * q as real
  {
  }

  lemma Reciprocal(x: real)
    requires x > 0.0
    ensures x * (1.0 / x) == 1.0 && (1.0 / x) * x == 1.0
  {
  }

  lemma RMulNonNegative(x: real, y: real)
    requires x >= 0.0 && y >= 0.0
    ensures x * y >= 0.0
  {
  }

  lemma RMulAssoc(x: real, y: real, z: real)
    ensures x * (y * z) == (x * y) * z
  {
  }

  lemma RMulScale(k: real, x: real, y: real)
    ensures k * (x * y) == x * (k * y)
  {
  }
}
