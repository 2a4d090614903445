/** Grisu2 on a whole double: the digits it produces lie strictly inside the
    interval of reals that round to that double, so they read back as it. */
module GrisuFormat {
  import opened Machine
  import opened Powers
  import opened Decimal
  import opened Fp
  import opened CachedPowers
  import opened Grisu
  import opened Doubles

  const MIN_EXP: int := -60

  /** Formats a positive finite double as digits times 10^decExp. `rounding` is the
      error of the one floating-point product taken on the way to the cached power. */
  method FormatPositive(bits: uint64, rounding: real, buffer: array<char>) returns (size: nat, decExp: int)
    requires PositiveFinite(bits) && buffer.Length >= MAX_DIGITS
    requires -0.000001 < rounding < 0.000001
    modifies buffer
    ensures 0 < size <= MAX_DIGITS && AllDigits(buffer[..size]) && buffer[0] != '0'
    ensures LowerValue(SignificandOf(bits), ExponentOf(bits))
          < Val(buffer[..size]) as real * RTen(decExp)
          < UpperValue(SignificandOf(bits), ExponentOf(bits))
    ensures ReadsAs(Val(buffer[..size]) as real * RTen(decExp), bits)
    ensures NothingCoarser(decExp, LowerValue(SignificandOf(bits), ExponentOf(bits)),
                           UpperValue(SignificandOf(bits), ExponentOf(bits)))
  {
    hide NothingCoarser, Shortest, RTwo, RTen, Two, Ten, Val, Power, Value, LowerValue, UpperValue, Within;
    hide TrueSignificand, RoundedProduct, DoubleValue, ReadsAs;
    var value := new Float.FromDouble(bits);
    var lower := new Float(0, 0);
    var upper := new Float(0, 0);
    ComputeBoundaries(value, lower, upper);
    var minExponent := MIN_EXP - (upper.e + 64);
    var i := CachedIndex((minExponent + 63) as real * ONE_OVER_LOG2_10 + rounding);
    ChosenExponent(minExponent, (minExponent + 63) as real * ONE_OVER_LOG2_10 + rounding);
    TableAccurate(i);
    var decPow := new Float(Power(i).significand as uint64, Power(i).exponent);
    decExp := -DecExp(i);
    var scaledLower := Multiply(lower, decPow);
    var scaledUpper := Multiply(upper, decPow);
    ScaledGap(lower.f as int, upper.f as int, decPow.f as int);
    scaledLower.f := scaledLower.f + 1;
    scaledUpper.f := scaledUpper.f - 1;
    var delta := scaledUpper.f - scaledLower.f;
    OneInRange(-scaledUpper.e);
    ghost var exp0 := decExp;
    size, decExp := GenDigits(scaledUpper.f, scaledUpper.e, delta, buffer, decExp);
    Contained(Val(buffer[..size]), decExp - exp0, scaledUpper.f as int, scaledLower.f as int,
              upper.f as int, lower.f as int, upper.e, i);
    ReadsBack(bits, Val(buffer[..size]) as real * RTen(decExp));
    ShortestInReals(decExp - exp0, scaledUpper.f as int, scaledLower.f as int,
                    upper.f as int, lower.f as int, upper.e, i);
  }

  /** 2^-60, the part of the upper bound by which the generator may miss a coarser number. */
  const MARGIN: real := 1.0 / 1152921504606846976.0

  /** r lies between the bounds, and not just inside either. */
  predicate WellInside(r: real, low: real, high: real) {
    low + high * MARGIN <= r <= high - high * MARGIN
  }

  /** No multiple of a power of ten above 10^exp lies well inside the interval: fewer
      digits would do only for numbers within 2^-60 of an end. */
  ghost predicate NothingCoarser(exp: int, low: real, high: real) {
    forall j: int, c: nat :: j > exp && c > 0 ==> !WellInside(Number(c, j), low, high)
  }

  ghost function Number(c: nat, j: int): real {
    c as real * RTen(j)
  }

  /** The scaled bounds stay apart by more than the two units taken off them. */
  lemma ScaledGap(lower: nat, upper: nat, power: nat)
    requires lower + 1536 <= upper < 0x1_0000_0000_0000_0000
    requires 0x8000_0000_0000_0000 <= upper
    requires 0x8000_0000_0000_0000 <= power < 0x1_0000_0000_0000_0000
    ensures RoundedProduct(lower, power) + 4 <= RoundedProduct(upper, power) < 0x1_0000_0000_0000_0000
    ensures 0x4000_0000_0000_0000 <= RoundedProduct(upper, power)
    ensures 0 <= RoundedProduct(lower, power)
  {
    MulMonotone(lower + 1536, upper, power);
    MulMonotone(0x8000_0000_0000_0000, upper, power);
    MulMonotone(upper, 0xffff_ffff_ffff_ffff, power);
    MulMonotone(0, lower, power);
    assert (lower + 1536) * power == lower * power + 1536 * power;
  }

  /** The unit taken off each bound covers both roundings: of the table entry and
      of the product. */
  lemma UnitCoversError(f: nat, power: nat, exact: real)
    requires f < 0x1_0000_0000_0000_0000 && -0.5 < exact - power as real < 0.5
    ensures var e := f as real * exact - RoundedProduct(f, power) as real * SCALE;
            -SCALE < e < SCALE
  {
    RealMul(f, power);
    var d := exact - power as real;
    assert f as real * exact == f as real * power as real + f as real * d;
    RMulNonNegative(f as real, 0.5 - d);
    RMulNonNegative(f as real, 0.5 + d);
  }

  /** 2^64, as a real. */
  const SCALE: real := 18446744073709551616.0

  /** A value between the two corrected bounds is strictly between the exact ones. */
  lemma StrictlyInside(fu: nat, fl: nat, power: nat, exact: real, v: real)
    requires fu < 0x1_0000_0000_0000_0000 && fl < 0x1_0000_0000_0000_0000 && -0.5 < exact - power as real < 0.5
    requires (RoundedProduct(fl, power) + 1) as real <= v <= (RoundedProduct(fu, power) - 1) as real
    ensures fl as real * exact < v * SCALE < fu as real * exact
  {
    hide RoundedProduct;
    UnitCoversError(fu, power, exact);
    UnitCoversError(fl, power, exact);
  }

  /** d * 10^exp in units of 2^-n, as a real. */
  lemma WithinReal(d: nat, exp: int, n: nat, upper: int, delta: int)
    requires Within(d, exp, n, upper, delta)
    ensures (upper - delta) as real <= d as real * RTen(exp) * RTwo(n) <= upper as real
  {
    hide RTwo, RTen, Two, Ten;
    RTwoNat(n);
    if exp >= 0 {
      RTenNat(exp);
      RealMul(d, Ten(exp));
      RealMul(d * Ten(exp), Two(n));
    } else {
      RTenNat(-exp);
      RTenInverse(exp);
      BelowZero(d, Two(n), Ten(-exp), upper, delta, RTen(exp));
    }
  }

  lemma BelowZero(d: nat, t: nat, q: nat, upper: int, delta: int, p: real)
    requires (upper - delta) * q <= d * t <= upper * q && p > 0.0 && p * q as real == 1.0
    ensures (upper - delta) as real <= d as real * p * t as real <= upper as real
  {
    RealMul(d, t);
    RealMul(upper, q);
    RealMul(upper - delta, q);
    Cancel(d as real * t as real, p, q as real, upper as real);
    Cancel(d as real * t as real, p, q as real, (upper - delta) as real);
    RSwap(d as real, t as real, p);
  }

  lemma Cancel(x: real, p: real, q: real, u: real)
    requires p * q == 1.0 && p > 0.0
    ensures x <= u * q ==> x * p <= u
    ensures x >= u * q ==> x * p >= u
  {
    assert u * q * p == u * (p * q) == u * 1.0;
    if x <= u * q {
      RMulNonNegative(u * q - x, p);
    }
    if x >= u * q {
      RMulNonNegative(x - u * q, p);
    }
  }

  lemma RSwap(x: real, y: real, z: real)
    ensures x * y * z == x * z * y
  {
  }

  /** Both sides of a scaled comparison carry the same positive factor. */
  lemma Descale(d: real, x: int, n: int, f: int, k: int, pe: int, ue: int)
    requires n == -(ue + pe + 64)
    ensures var c := RTen(k) * RTwo(n) * SCALE;
            && c > 0.0
            && d * RTen(x) * RTwo(n) * SCALE == c * (d * RTen(x - k))
            && f as real * (RTen(k) * RTwo(-pe)) == c * Value(f, ue)
  {
    hide RTwo, RTen;
    RTwoM(64);
    RTenAdd(x - k, k);
    RTwoAdd(ue, n + 64);
    RTwoAdd(n, 64);
    assert x - k + k == x && ue + (n + 64) == -pe;
    Rearrange(d, RTen(x - k), RTen(k), RTwo(n), SCALE, f as real, RTwo(ue));
    RMulPositive(RTen(k), RTwo(n));
    RMulPositive(RTen(k) * RTwo(n), SCALE);
  }

  lemma RTwoM(k: nat)
    requires 63 < k < 65
    ensures RTwo(k) == SCALE
  {
    hide RTwo;
    RTwoNat(k);
    Two64(k);
  }

  lemma RMulPositive(x: real, y: real)
    requires x > 0.0 && y > 0.0
    ensures x * y > 0.0
  {
  }

  lemma Rearrange(d: real, a: real, b: real, t: real, m: real, f: real, u: real)
    ensures d * (a * b) * t * m == b * t * m * (d * a)
    ensures f * (b * (u * (t * m))) == b * t * m * (f * u)
  {
    calc {
      d * (a * b) * t * m;
      d * a * b * t * m;
      b * t * m * (d * a);
    }
    calc {
      f * (b * (u * (t * m)));
      f * b * u * t * m;
      b * t * m * (f * u);
    }
  }

  /** From the digit generator's guarantee to the exact rounding interval. */
  lemma Contained(d: nat, x: int, su: int, sl: int, fu: nat, fl: nat, ue: int, i: nat)
    requires i < ENTRIES && fu < 0x1_0000_0000_0000_0000 && fl < fu
    requires su == RoundedProduct(fu, Power(i).significand) - 1 && sl == RoundedProduct(fl, Power(i).significand) + 1
    requires ue + Power(i).exponent + 64 <= 0
    requires Within(d, x, -(ue + Power(i).exponent + 64), su, su - sl)
    ensures Value(fl, ue) < d as real * RTen(x - DecExp(i)) < Value(fu, ue)
  {
    hide RTwo, RTen, Power, Within, RoundedProduct, Value;
    TableAccurate(i);
    var p, pe, k := Power(i).significand, Power(i).exponent, DecExp(i);
    var n := -(ue + pe + 64);
    var exact := TrueSignificand(i);
    WithinReal(d, x, n, su, su - sl);
    var v := d as real * RTen(x) * RTwo(n);
    StrictlyInside(fu, fl, p, exact, v);
    Descale(d as real, x, n, fu, k, pe, ue);
    Descale(d as real, x, n, fl, k, pe, ue);
    var c := RTen(k) * RTwo(n) * SCALE;
    Divide(c, Value(fl, ue), d as real * RTen(x - k));
    Divide(c, d as real * RTen(x - k), Value(fu, ue));
  }

  lemma Divide(c: real, x: real, y: real)
    requires c > 0.0 && c * x < c * y
    ensures x < y
  {
    if x >= y {
      RMulNonNegative(c, x - y);
    }
  }

  /** The converse of WithinReal, for the half-open interval. */
  lemma StrictlyWithinReal(d: nat, exp: int, n: nat, upper: int, delta: int)
    requires (upper - delta) as real < d as real * RTen(exp) * RTwo(n) <= upper as real
    ensures StrictlyWithin(d, exp, n, upper, delta)
  {
    hide RTwo, RTen, Two, Ten;
    RTwoNat(n);
    if exp >= 0 {
      RTenNat(exp);
      RealMul(d, Ten(exp));
      RealMul(d * Ten(exp), Two(n));
    } else {
      RTenNat(-exp);
      RTenInverse(exp);
      AboveZero(d, Two(n), Ten(-exp), upper, delta, RTen(exp));
    }
  }

  lemma AboveZero(d: nat, t: nat, q: nat, upper: int, delta: int, p: real)
    requires (upper - delta) as real < d as real * p * t as real <= upper as real
    requires p * q as real == 1.0 && p > 0.0 && q > 0
    ensures (upper - delta) * q < d * t <= upper * q
  {
    RealMul(d, t);
    RealMul(upper, q);
    RealMul(upper - delta, q);
    var x := d as real * t as real;
    RSwap(d as real, t as real, p);
    Multiplied(x, p, q as real, upper as real);
    Multiplied(x, p, q as real, (upper - delta) as real);
  }

  lemma Multiplied(x: real, p: real, q: real, u: real)
    requires p * q == 1.0 && q > 0.0
    ensures x * p <= u ==> x <= u * q
    ensures x * p > u ==> x > u * q
  {
    assert x * p * q == x * (p * q) == x * 1.0;
    if x * p <= u {
      RMulNonNegative(u - x * p, q);
    } else {
      RMulPositive(x * p - u, q);
    }
  }

  /** A number well inside, between bounds this large, clears the two units taken off
      each of them. */
  lemma ClearsUnits(a: real, b: real, w: real, k: real, low: real, high: real, v: real)
    requires k > 0.0 && a == k * low && b == k * high && w == k * v
    requires WellInside(v, low, high) && b >= 2.0 * SCALE / MARGIN
    ensures a + 2.0 * SCALE <= w <= b - 2.0 * SCALE
  {
    RMulNonNegative(k, v - (low + high * MARGIN));
    RMulNonNegative(k, high - high * MARGIN - v);
    RMulScale(k, high, MARGIN);
    assert k * (high * MARGIN) == b * MARGIN;
    assert b * MARGIN >= 2.0 * SCALE;
  }

  lemma LargeUpper(f: nat, exact: real)
    requires 0x8000_0000_0000_0000 <= f && exact >= 9223372036854775807.0
    ensures f as real * exact >= 2.0 * SCALE / MARGIN
  {
    RMulNonNegative(f as real - 9223372036854775808.0, exact);
    assert 9223372036854775808.0 * exact >= 9223372036854775808.0 * 9223372036854775807.0;
  }

  lemma WellInsideIsStrict(c: nat, x: int, su: int, sl: int, fu: nat, fl: nat, ue: int, i: nat)
    requires i < ENTRIES && 0x8000_0000_0000_0000 <= fu < 0x1_0000_0000_0000_0000 && fl < fu
    requires su == RoundedProduct(fu, Power(i).significand) - 1 && sl == RoundedProduct(fl, Power(i).significand) + 1
    requires ue + Power(i).exponent + 64 <= 0
    requires WellInside(Number(c, x - DecExp(i)), Value(fl, ue), Value(fu, ue))
    ensures StrictlyWithin(c, x, -(ue + Power(i).exponent + 64), su, su - sl)
  {
    hide RTwo, RTen, Power, StrictlyWithin, WellInside, RoundedProduct, Value, Number, TrueSignificand;
    TableAccurate(i);
    ScaledUp(c, x, fu, fl, ue, i);
    var p, n := Power(i).significand, -(ue + Power(i).exponent + 64);
    var exact, v := TrueSignificand(i), c as real * RTen(x) * RTwo(n);
    UnitCoversError(fu, p, exact);
    UnitCoversError(fl, p, exact);
    InUnits(fl as real * exact, fu as real * exact, v, sl - 1, su + 1);
    StrictlyWithinReal(c, x, n, su, su - sl);
  }

  /** The same in units of the scaled significands. */
  lemma ScaledUp(c: nat, x: int, fu: nat, fl: nat, ue: int, i: nat)
    requires i < ENTRIES && 0x8000_0000_0000_0000 <= fu && ue + Power(i).exponent + 64 <= 0
    requires WellInside(Number(c, x - DecExp(i)), Value(fl, ue), Value(fu, ue))
    ensures var v := c as real * RTen(x) * RTwo(-(ue + Power(i).exponent + 64));
            && fl as real * TrueSignificand(i) + 2.0 * SCALE <= v * SCALE
            && v * SCALE <= fu as real * TrueSignificand(i) - 2.0 * SCALE
  {
    hide RTwo, RTen, Power, WellInside, Value;
    TableAccurate(i);
    var pe, k := Power(i).exponent, DecExp(i);
    var n, exact := -(ue + pe + 64), TrueSignificand(i);
    Descale(c as real, x, n, fu, k, pe, ue);
    Descale(c as real, x, n, fl, k, pe, ue);
    LargeUpper(fu, exact);
    var w := c as real * RTen(x) * RTwo(n) * SCALE;
    hide TrueSignificand;
    ClearsUnits(fl as real * exact, fu as real * exact, w, RTen(k) * RTwo(n) * SCALE,
                Value(fl, ue), Value(fu, ue), Number(c, x - k));
  }

  lemma InUnits(a: real, b: real, v: real, rl: int, ru: int)
    requires a + 2.0 * SCALE <= v * SCALE <= b - 2.0 * SCALE
    requires -SCALE < a - rl as real * SCALE < SCALE && -SCALE < b - ru as real * SCALE < SCALE
    ensures (rl + 1) as real < v <= (ru - 1) as real
  {
  }

  lemma ShortestInReals(x: int, su: int, sl: int, fu: nat, fl: nat, ue: int, i: nat)
    requires i < ENTRIES && 0x8000_0000_0000_0000 <= fu < 0x1_0000_0000_0000_0000 && fl < fu
    requires su == RoundedProduct(fu, Power(i).significand) - 1 && sl == RoundedProduct(fl, Power(i).significand) + 1
    requires ue + Power(i).exponent + 64 <= 0
    requires Shortest(x, -(ue + Power(i).exponent + 64), su, su - sl)
    ensures NothingCoarser(x - DecExp(i), Value(fl, ue), Value(fu, ue))
  {
    hide Power, StrictlyWithin, WellInside, RoundedProduct, Value;
    hide Number;
    forall j: int, c: nat | j > x - DecExp(i) && c > 0
      ensures !WellInside(Number(c, j), Value(fl, ue), Value(fu, ue))
    {
      if WellInside(Number(c, j), Value(fl, ue), Value(fu, ue)) {
        assert j + DecExp(i) - DecExp(i) == j;
        WellInsideIsStrict(c, j + DecExp(i), su, sl, fu, fl, ue, i);
      }
    }
  }
}
