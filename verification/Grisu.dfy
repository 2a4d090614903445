/** Grisu2: the digits of a double, and why they read back as the same double. */
module Grisu {
  import opened Machine
  import opened Powers
  import opened Decimal
  import opened Fp
  import CountDigits

  /** The most digits the generator can write. */
  const MAX_DIGITS: nat := 29

  /** d * 10^exp, in units of 2^-n, lies within [upper - delta, upper]. */
  predicate Within(d: nat, exp: int, n: nat, upper: int, delta: int) {
    if exp >= 0 then
      upper - delta <= d * Ten(exp) * Two(n) <= upper
    else
      (upper - delta) * Ten(-exp) <= d * Two(n) <= upper * Ten(-exp)
  }

  /** d * 10^exp, in units of 2^-n, lies within (upper - delta, upper]. */
  predicate StrictlyWithin(d: nat, exp: int, n: nat, upper: int, delta: int) {
    if exp >= 0 then
      upper - delta < d * Ten(exp) * Two(n) <= upper
    else
      (upper - delta) * Ten(-exp) < d * Two(n) <= upper * Ten(-exp)
  }

  /** No positive multiple of 10^exp lies in that half-open interval. */
  ghost predicate Clear(exp: int, n: nat, upper: int, delta: int) {
    forall c: nat :: c > 0 ==> !StrictlyWithin(c, exp, n, upper, delta)
  }

  /** No positive multiple of a power of ten above 10^exp does. */
  ghost predicate Shortest(exp: int, n: nat, upper: int, delta: int) {
    forall j: int, c: nat :: j > exp && c > 0 ==> !StrictlyWithin(c, j, n, upper, delta)
  }

  /** The powers the switch over the number of remaining digits divides by. */
  function SmallTen(k: nat): (p: uint32)
    requires k < 10
    ensures p as int == Ten(k)
  {
    TenUpTo9(k);
    match k
    case 0 => 1
    case 1 => 10
    case 2 => 100
    case 3 => 1000
    case 4 => 10000
    case 5 => 100000
    case 6 => 1000000
    case 7 => 10000000
    case 8 => 100000000
    case _ => 1000000000
  }

  lemma {:induction false} TenUpTo9(k: nat)
    requires k < 10
    ensures Ten(k) == [1, 10, 100, 1000, 10000, 100000, 1000000, 10000000, 100000000, 1000000000][k]
  {
    if k > 0 {
      TenUpTo9(k - 1);
    }
  }

  /** What the buffer holds: size digits denoting d, the first not a zero. */
  ghost predicate Holds(buffer: array<char>, size: nat, d: nat)
    reads buffer
  {
    && size <= buffer.Length && AllDigits(buffer[..size]) && Val(buffer[..size]) == d
    && (size > 0 ==> buffer[0] != '0')
  }

  /** Appends a digit, unless it would be a leading zero. */
  method Emit(buffer: array<char>, size0: nat, digit: nat, ghost d: nat) returns (size: nat)
    requires size0 < buffer.Length && digit < 10 && Holds(buffer, size0, d)
    requires size0 == 0 ==> digit > 0
    modifies buffer
    ensures size == size0 + 1 && Holds(buffer, size, 10 * d + digit)
  {
    size := size0;
    if digit != 0 || size != 0 {
      buffer[size] := DigitChar(digit);
      size := size + 1;
    }
    assert buffer[..size] == old(buffer[..size0]) + [DigitChar(digit)];
    ValSnoc(old(buffer[..size0]), DigitChar(digit));
  }

  /** The state between two digits of the integral part: d has been written,
      hi remains of hi0, and exp digits are still to come. */
  predicate WholeState(d: nat, hi: int, hi0: int, exp: nat, count: nat, size: int) {
    && exp <= count <= 10 && size == count - exp
    && hi0 == d * Ten(exp) + hi && 0 <= hi < Ten(exp)
    && (size == 0 ==> hi == hi0)
  }

  /** The state between two digits of the fractional part, after k of them. */
  predicate FractionState(d: nat, lo: int, one: int, upper: int, delta: int, delta0: int, k: nat) {
    && k <= 18 && delta == delta0 * Ten(k) && 0 < delta <= lo < one
    && d * one + lo == upper * Ten(k)
  }

  /** Generates the digits of scaledUpper from the top and stops at the first
      prefix within delta of it: no number with fewer digits before the same point, or
      with fewer places after it, would do. Termination, the absence of 64-bit overflow and
      the bound on the number of digits come from delta >= 1 and the exponent range. */
  method GenDigits(scaledUpper: uint64, upperE: int, delta0: uint64, buffer: array<char>, decExp: int)
    returns (size: nat, newExp: int)
    requires -60 <= upperE <= -32 && Two(-upperE) <= scaledUpper as int && delta0 >= 1
    requires buffer.Length >= MAX_DIGITS
    modifies buffer
    ensures 0 < size <= MAX_DIGITS
    ensures AllDigits(buffer[..size]) && buffer[0] != '0'
    ensures Within(Val(buffer[..size]), newExp - decExp, -upperE, scaledUpper as int, delta0 as int)
    ensures Shortest(newExp - decExp, -upperE, scaledUpper as int, delta0 as int)
  {
    hide Two, Ten, Dec, Val, CountDigits.FastCount, Holds, WholeState, FractionState, Within, Clear, Shortest;
    OneInRange(-upperE);
    var one: uint64 := Two(-upperE) as uint64;
    HighPart(scaledUpper as int, one as int);
    var hi: uint32 := (scaledUpper / one) as uint32;
    var lo: uint64 := scaledUpper % one;
    ghost var hi0 := hi as int;
    size := 0;
    CountDigits.FastCount32(hi as int);
    var exp: int := CountDigits.FastCount(hi as int);
    ghost var count := exp;
    ghost var d: nat := 0;
    StartWhole(hi0, count);
    StartBuffer(buffer);
    ClearWhole(0, hi0, hi0, count, count, 0, one as int, lo as int, scaledUpper as int, delta0 as int, -upperE);
    while exp > 0
      invariant 0 <= exp <= count <= 10 && size == count - exp && Holds(buffer, size, d)
      invariant WholeState(d, hi as int, hi0, exp, count, size)
      invariant exp < count ==> hi as int * one as int + lo as int > delta0 as int
      invariant Clear(exp, -upperE, scaledUpper as int, delta0 as int)
    {
      var p := SmallTen(exp - 1);
      WholeStep(d, hi as int, hi0, exp, count, size);
      RemainderFits(hi as int % p as int, hi0, one as int, lo as int, scaledUpper as int);
      var digit := hi / p;
      hi := hi % p;
      size := Emit(buffer, size, digit as nat, d);
      d := 10 * d + digit as nat;
      exp := exp - 1;
      var remainder: uint64 := hi as uint64 * one + lo;
      if remainder <= delta0 {
        WholePart(d, hi as int, hi0, exp, count, size, one as int, lo as int, scaledUpper as int, delta0 as int,
                  -upperE);
        Finish(buffer, size, d);
        return size, decExp + exp;
      }
      ClearWhole(d, hi as int, hi0, exp, count, size, one as int, lo as int, scaledUpper as int, delta0 as int,
                 -upperE);
    }
    var delta := delta0;
    StartFraction(d, hi as int, hi0, count, size, lo as int, one as int, scaledUpper as int, delta0 as int);
    while true
      invariant exp <= 0 && -exp <= 18 && size == count - exp && Holds(buffer, size, d)
      invariant 0 < delta <= lo < one
      invariant Clear(exp, -upperE, scaledUpper as int, delta0 as int)
      invariant FractionState(d, lo as int, one as int, scaledUpper as int, delta as int, delta0 as int, -exp)
      decreases one - delta
    {
      FractionStep(d, lo as int, one as int, scaledUpper as int, delta as int, delta0 as int, -exp);
      lo := lo * 10;
      delta := delta * 10;
      var digit := lo / one;
      size := Emit(buffer, size, digit as nat, d);
      d := 10 * d + digit as nat;
      lo := lo % one;
      exp := exp - 1;
      if lo < delta {
        FractionPart(d, one as int, lo as int, delta as int, scaledUpper as int, delta0 as int, -exp, -upperE);
        Finish(buffer, size, d);
        return size, decExp + exp;
      }
      NextFraction(d, lo as int, one as int, scaledUpper as int, delta as int, delta0 as int, -exp, -upperE);
    }
  }

  /** While the remainder exceeds delta, or nothing has been written, there is no
      multiple of the next digit's weight to stop at. */
  lemma ClearWhole(d: nat, hi: int, hi0: int, exp: nat, count: nat, size: nat, one: nat, lo: nat, upper: nat,
                   delta: nat, n: nat)
    requires WholeState(d, hi, hi0, exp, count, size) && one == Two(n) && upper == hi0 * one + lo && lo < one
    requires d == 0 || hi * one + lo > delta
    ensures Clear(exp, n, upper, delta)
  {
    hide Two, Ten;
    var p := Ten(exp);
    assert hi0 * one == d * p * one + hi * one;
    forall c: nat | c > 0
      ensures !(upper - delta < c * p * one <= upper)
    {
      WholeMultiple(d, hi, p, one, lo, c);
      if c <= d && d > 0 {
        MulMonotone(c * p, d * p, one);
      }
    }
    hide WholeState;
  }

  lemma WholeMultiple(d: nat, hi: nat, p: nat, one: nat, lo: nat, c: nat)
    requires hi < p && lo < one
    ensures c > d ==> c * p * one > d * p * one + hi * one + lo
    ensures c <= d ==> c * p <= d * p
  {
    if c > d {
      MulMonotone(d + 1, c, p);
      assert (d + 1) * p == d * p + p;
      MulMonotone(d * p + hi + 1, c * p, one);
      assert (d * p + hi + 1) * one == d * p * one + hi * one + one;
    } else {
      MulMonotone(c, d, p);
    }
  }

  lemma ClearFraction(d: nat, lo: nat, one: nat, upper: nat, delta: nat, delta0: nat, k: nat, n: nat)
    requires delta <= lo < one && delta == delta0 * Ten(k) && d * one + lo == upper * Ten(k) && one == Two(n) && k > 0
    ensures Clear(0 - k, n, upper, delta0)
  {
    hide Ten, Two;
    var t := Ten(k);
    assert (upper - delta0) * t == upper * t - delta0 * t;
    forall c: nat | c > 0
      ensures !((upper - delta0) * t < c * one <= upper * t)
    {
      if c <= d {
        MulMonotone(c, d, one);
      } else {
        MulMonotone(d + 1, c, one);
        assert (d + 1) * one == d * one + one;
      }
    }
  }

  /** A multiple of a higher power is a multiple of a lower one. */
  lemma Coarser(c: nat, j: int, k: int, n: nat, upper: int, delta: int)
    requires StrictlyWithin(c, j, n, upper, delta) && k <= j && c > 0
    ensures StrictlyWithin(c * Ten(j - k), k, n, upper, delta) && c * Ten(j - k) > 0
  {
    hide Ten, Two;
    var q, t := Ten(j - k), Two(n);
    MulPositive(c, q);
    if k >= 0 {
      TenAdd(j - k, k);
      MulAssoc(c, q, Ten(k));
    } else if j >= 0 {
      TenAdd(j, -k);
      ScaleWithin(c * Ten(j), t, Ten(-k), upper, upper - delta);
      MulAssoc(c, Ten(j), Ten(-k));
    } else {
      TenAdd(j - k, -j);
      ScaleWithin(c, t, q, upper * Ten(-j), (upper - delta) * Ten(-j));
      MulAssoc(upper, Ten(-j), q);
      MulAssoc(upper - delta, Ten(-j), q);
    }
  }

  lemma MulPositive(x: nat, y: nat)
    requires x > 0 && y > 0
    ensures x * y > 0
  {
    MulMonotone(1, x, y);
  }

  lemma ScaleWithin(x: nat, t: nat, q: nat, u: int, l: int)
    requires l < x * t <= u && q > 0
    ensures l * q < x * q * t <= u * q
  {
    assert x * q * t == x * t * q;
    MulMonotone(x * t, u, q);
    MulMonotone(l + 1, x * t, q);
    assert (l + 1) * q == l * q + q;
  }

  lemma ClearAbove(k: int, n: nat, upper: int, delta: int)
    requires Clear(k, n, upper, delta)
    ensures Shortest(k - 1, n, upper, delta)
  {
    forall j: int, c: nat | j > k - 1 && c > 0
      ensures !StrictlyWithin(c, j, n, upper, delta)
    {
      if StrictlyWithin(c, j, n, upper, delta) {
        Coarser(c, j, k, n, upper, delta);
      }
    }
  }

  lemma StartBuffer(buffer: array<char>)
    ensures Holds(buffer, 0, 0)
  {
  }

  lemma Finish(buffer: array<char>, size: nat, d: nat)
    requires Holds(buffer, size, d) && size > 0
    ensures size <= buffer.Length && AllDigits(buffer[..size]) && Val(buffer[..size]) == d && buffer[0] != '0'
  {
  }

  lemma StartWhole(hi: nat, count: nat)
    requires count == |Dec(hi)| <= 10
    ensures WholeState(0, hi, hi, count, count, 0)
  {
    DecLength(hi);
  }

  /** One digit of the integral part; the first one is not a zero. */
  lemma WholeStep(d: nat, hi: int, hi0: int, exp: nat, count: nat, size: nat)
    requires WholeState(d, hi, hi0, exp, count, size) && exp > 0
    requires hi0 > 0 && count == |Dec(hi0)|
    ensures var p := Ten(exp - 1);
            && 0 <= hi / p < 10 && (size == 0 ==> hi / p > 0) && 0 <= hi % p <= hi0
            && WholeState(10 * d + hi / p, hi % p, hi0, exp - 1, count, size + 1)
  {
    if size == 0 {
      DecLength(hi0);
    }
    assert size == 0 ==> hi >= Ten(exp - 1);
    assert Ten(exp) == 10 * Ten(exp - 1);
    hide Ten, Dec;
    NextDigit(d, hi, hi0, Ten(exp - 1));
  }

  lemma NextDigit(d: nat, hi: nat, hi0: nat, p: nat)
    requires p > 0 && hi < 10 * p && hi0 == d * (10 * p) + hi
    ensures hi / p < 10 && (hi >= p ==> hi / p > 0) && hi % p <= hi0
    ensures hi0 == (10 * d + hi / p) * p + hi % p && hi % p < p
  {
    PeelDigit(d, p, hi, hi / p);
    MulMonotone(0, 10 * d + hi / p, p);
    if hi >= p {
      AtLeastOne(hi, p);
    }
  }

  lemma AtLeastOne(hi: nat, p: nat)
    requires 0 < p <= hi
    ensures hi / p >= 1
  {
    assert hi == hi / p * p + hi % p;
    if hi / p < 1 {
      MulMonotone(hi / p, 0, p);
    }
  }

  lemma OneInRange(n: nat)
    requires 32 <= n <= 60
    ensures 0x1_0000_0000 <= Two(n) <= 0x1000_0000_0000_0000
  {
    Two32(n - (n - 32));
    TwoMonotone(32, n);
    var m := n + (60 - n);
    Two64(m + 4);
    TwoAdd(m, 4);
    TwoMonotone(n, m);
  }

  lemma HighPart(u: nat, one: nat)
    requires 0x1_0000_0000 <= one <= u < 0x1_0000_0000_0000_0000
    ensures 1 <= u / one < 0x1_0000_0000 && u == u / one * one + u % one
  {
    var q := u / one;
    assert u == q * one + u % one;
    if q >= 0x1_0000_0000 {
      MulMonotone(0x1_0000_0000, q, one);
    }
    if q <= 0 {
      MulMonotone(q, 0, one);
    }
  }

  lemma PeelDigit(d: nat, p: nat, hi: nat, digit: nat)
    requires p > 0 && digit == hi / p && hi < 10 * p
    ensures digit < 10 && d * (10 * p) + hi == (10 * d + digit) * p + hi % p
  {
    assert hi == digit * p + hi % p;
    if digit >= 10 {
      MulMonotone(10, digit, p);
    }
    assert (10 * d + digit) * p == 10 * d * p + digit * p;
  }

  lemma RemainderFits(hi: nat, hi0: nat, one: nat, lo: nat, upper: nat)
    requires hi <= hi0 && upper == hi0 * one + lo
    ensures hi * one + lo <= upper && 0 <= hi * one
  {
    MulMonotone(hi, hi0, one);
  }

  lemma WholePart(d: nat, hi: int, hi0: int, exp: nat, count: nat, size: nat, one: nat, lo: nat, upper: nat,
                  delta: nat, n: nat)
    requires WholeState(d, hi, hi0, exp, count, size) && one == Two(n) && upper == hi0 * one + lo
    requires hi * one + lo <= delta && Clear(exp + 1, n, upper, delta)
    ensures Within(d, exp, n, upper, delta) && Shortest(exp, n, upper, delta)
  {
    ClearAbove(exp + 1, n, upper, delta);
    hide Two, Ten, Clear, Shortest, Dec;
    WholeValue(d, hi, hi0, Ten(exp), one);
  }

  lemma WholeValue(d: nat, hi: nat, hi0: nat, p: nat, one: nat)
    requires hi0 == d * p + hi
    ensures hi0 * one == d * p * one + hi * one && 0 <= hi * one
  {
    MulMonotone(0, hi, one);
  }

  lemma StartFraction(d: nat, hi: int, hi0: int, count: nat, size: nat, lo: int, one: int, upper: int, delta0: int)
    requires WholeState(d, hi, hi0, 0, count, size) && upper == hi0 * one + lo
    requires 0 < delta0 < hi * one + lo && 0 <= lo < one
    ensures FractionState(d, lo, one, upper, delta0, delta0, 0)
  {
    assert Ten(0) == 1;
    assert hi == 0;
  }

  lemma FractionStep(d: nat, lo: int, one: int, upper: int, delta: int, delta0: int, k: nat)
    requires FractionState(d, lo, one, upper, delta, delta0, k)
    ensures 0 <= lo * 10 / one < 10
    ensures (10 * d + lo * 10 / one) * one + lo * 10 % one == upper * Ten(k + 1)
    ensures delta * 10 == delta0 * Ten(k + 1)
  {
    assert Ten(k + 1) == 10 * Ten(k);
    hide Ten;
    TenfoldStep(d, lo, one, upper, delta0, Ten(k));
  }

  lemma TenfoldStep(d: nat, lo: nat, one: nat, upper: int, delta0: int, t: nat)
    requires lo < one && d * one + lo == upper * t
    ensures lo * 10 / one < 10
    ensures (10 * d + lo * 10 / one) * one + lo * 10 % one == upper * (10 * t)
    ensures 10 * (delta0 * t) == delta0 * (10 * t)
  {
    PeelDigit(d, one, lo * 10, lo * 10 / one);
    calc {
      d * (10 * one) + lo * 10;
      10 * (d * one + lo);
      10 * (upper * t);
      upper * (10 * t);
    }
  }

  lemma NextFraction(d: nat, lo: int, one: int, upper: int, delta: int, delta0: int, k: nat, n: nat)
    requires delta == delta0 * Ten(k) && 0 < delta <= lo < one && d * one + lo == upper * Ten(k)
    requires one == Two(n) && one <= 0x1000_0000_0000_0000 && k > 0 && delta0 >= 1 && upper >= 0
    ensures FractionState(d, lo, one, upper, delta, delta0, k) && Clear(0 - k, n, upper, delta0) && k <= 18
  {
    hide Two;
    FewDigits(k, delta, delta0);
    ClearFraction(d, lo, one, upper, delta, delta0, k, n);
    hide Ten, Clear;
  }

  lemma FractionPart(d: nat, one: nat, lo: nat, delta: nat, upper: nat, delta0: nat, k: nat, n: nat)
    requires lo < delta && delta == delta0 * Ten(k) && d * one + lo == upper * Ten(k) && one == Two(n) && k > 0
    requires Clear(1 - k, n, upper, delta0)
    ensures Within(d, 0 - k, n, upper, delta0) && Shortest(0 - k, n, upper, delta0)
  {
    ClearAbove(1 - k, n, upper, delta0);
    hide Ten, Two, Clear, Shortest;
    var t := Ten(k);
    assert (upper - delta0) * t == upper * t - delta0 * t;
  }

  lemma FewDigits(k: nat, delta: nat, delta0: nat)
    requires delta0 >= 1 && delta == delta0 * Ten(k) && delta < 0x1000_0000_0000_0000
    ensures k <= 18
  {
    hide Ten;
    MulMonotone(1, delta0, Ten(k));
    var n := 19;
    CountDigits.PowersOf10(n);
    CountDigits.TableEnds();
    TenLess(k, n);
  }
}
