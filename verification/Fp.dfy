/** The handmade floating-point number f * 2^e with a 64-bit significand. */
module Fp {
  import opened Machine
  import opened Powers

  const IMPLICIT_BIT: uint64 := 0x10_0000_0000_0000

  /** The number that significand f and exponent e denote. */
  function Value(f: int, e: int): real {
    f as real * RTwo(e)
  }

  /** The magnitude of a double, section 3.4 of IEEE 754-2008: exponent field E
      and trailing significand T, with the scale of subnormals for E = 0. */
  function DoubleValue(bits: uint64): real {
    var E, T := (bits as int / 0x10_0000_0000_0000) % 2048, bits as int % 0x10_0000_0000_0000;
    if E == 0 then T as real * RTwo(1 - 1023 - 52)
    else (1.0 + T as real / 0x10_0000_0000_0000 as real) * RTwo(E - 1023)
  }

  /** The double as an integer times a power of two: DoubleValue(bits) == Value(SignificandOf(bits), ExponentOf(bits)). */
  function SignificandOf(bits: uint64): int {
    var E, T := (bits as int / 0x10_0000_0000_0000) % 2048, bits as int % 0x10_0000_0000_0000;
    if E == 0 then T else T + 0x10_0000_0000_0000
  }

  function ExponentOf(bits: uint64): int {
    var E := (bits as int / 0x10_0000_0000_0000) % 2048;
    (if E == 0 then 1 else E) - 1075
  }

  predicate PositiveFinite(bits: uint64) {
    0 < bits < 0x7ff0_0000_0000_0000
  }

  /** The product of 64-bit significands, halved in width, to nearest and ties up. */
  function RoundedProduct(x: nat, y: nat): nat {
    (x * y + 0x8000_0000_0000_0000) / 0x1_0000_0000_0000_0000
  }

  function ShiftedBit(shift: nat): uint64
    requires shift <= 1
  {
    if shift == 0 then IMPLICIT_BIT else 2 * IMPLICIT_BIT
  }

  /** f & (IMPLICIT_BIT << shift) */
  predicate ImplicitBitSet(f: uint64, shift: nat)
    requires shift <= 1
  {
    if shift == 0 then f / 0x10_0000_0000_0000 % 2 == 1 else f / 0x20_0000_0000_0000 % 2 == 1
  }

  class Float {
    var f: uint64
    var e: int

    constructor (f: uint64, e: int)
      ensures this.f == f && this.e == e
    {
      this.f, this.e := f, e;
    }

    constructor FromDouble(bits: uint64)
      ensures f as int == SignificandOf(bits) && e == ExponentOf(bits)
      ensures Value(f as int, e) == DoubleValue(bits)
      ensures f < 2 * IMPLICIT_BIT && -1074 <= e <= 972
      ensures PositiveFinite(bits) ==> 0 < f && e <= 971
      ensures f < IMPLICIT_BIT ==> e == -1074
    {
      hide RTwo, DoubleValue, Value;
      var biased: uint64 := bits / IMPLICIT_BIT % 2048;
      var significand: uint64 := bits % IMPLICIT_BIT;
      if biased != 0 {
        significand := significand + IMPLICIT_BIT;
      } else {
        biased := 1;
      }
      f := significand;
      e := biased as int - 1023 - 52;
      new;
      DecodedValue(bits);
    }

    /** Shifts until the implicit bit (times 2^shift) is set, then up to 64 bits. */
    method Normalize(shift: nat)
      requires shift <= 1
      requires 0 < f as int < Two(53 + shift)
      modifies this
      ensures 0x8000_0000_0000_0000 <= f
      ensures old(e) - 63 - shift <= e <= old(e) - 11 + shift
      ensures f as int == old(f) as int * Two(old(e) - e)
      ensures old(f) as int >= Two(52 + shift) ==> e == old(e) - 11 + shift
    {
      ImplicitBit(shift);
      hide Two, ImplicitBitSet, ShiftedBit;
      ghost var f0, e0 := f as int, e;
      StartShift(f0);
      ghost var bit := ShiftedBit(shift);
      while !ImplicitBitSet(f, shift)
        invariant 0 < f < 2 * bit
        invariant e <= e0 && f as int == f0 * Two(e0 - e)
        invariant f0 >= bit as int ==> e == e0
        decreases 2 * bit - f
      {
        BitClear(f, shift);
        DoubleShift(f0, e0 - e);
        f := f * 2;
        e := e - 1;
      }
      BitClear(f, shift);
      ShiftBound(f0, f as int, e0 - e, 52 + shift);
      var offset := 64 - 52 - shift - 1;
      TwoAdd(e0 - e, offset);
      MulAssoc(f0, Two(e0 - e), Two(offset));
      TwoOffset(offset);
      f := f * (if shift == 0 then 2048 else 1024);
      e := e - offset;
    }
  }

  lemma BitClear(f: uint64, shift: nat)
    requires shift <= 1 && f < 2 * ShiftedBit(shift)
    ensures ImplicitBitSet(f, shift) <==> f >= ShiftedBit(shift)
  {
  }

  lemma StartShift(f: int)
    ensures f == f * Two(0)
  {
    assert Two(0) == 1;
  }

  /** The 32-bit halves are multiplied one by one; none of the intermediate sums
      leaves 64 bits, and the result is the exactly rounded product. */
  method Multiply(x: Float, y: Float) returns (r: Float)
    ensures fresh(r) && r.e == x.e + y.e + 64
    ensures r.f as int == RoundedProduct(x.f as int, y.f as int)
  {
    var half: uint64 := 0x1_0000_0000;
    var a, b := x.f / half, x.f % half;
    var c, d := y.f / half, y.f % half;
    HalfProducts(a as int, b as int, c as int, d as int);
    var ac, bc, ad, bd := a * c, b * c, a * d, b * d;
    var mid := bd / half + ad % half + bc % half + 0x8000_0000;
    HalvesAddUp(a as int, b as int, c as int, d as int);
    r := new Float(ac + ad / half + bc / half + mid / half, x.e + y.e + 64);
  }

  lemma HalfProducts(a: nat, b: nat, c: nat, d: nat)
    requires a < 0x1_0000_0000 && b < 0x1_0000_0000 && c < 0x1_0000_0000 && d < 0x1_0000_0000
    ensures a * c <= 0xffff_fffe_0000_0001 && b * c <= 0xffff_fffe_0000_0001
    ensures a * d <= 0xffff_fffe_0000_0001 && b * d <= 0xffff_fffe_0000_0001
  {
    ProductBound(a, c);
    ProductBound(b, c);
    ProductBound(a, d);
    ProductBound(b, d);
  }

  lemma ProductBound(x: nat, y: nat)
    requires x < 0x1_0000_0000 && y < 0x1_0000_0000
    ensures 0 <= x * y <= 0xffff_fffe_0000_0001
  {
    MulMonotone(x, 0xffff_ffff, y);
    MulMonotone(0, x, y);
  }

  lemma HalvesAddUp(a: nat, b: nat, c: nat, d: nat)
    requires a < 0x1_0000_0000 && b < 0x1_0000_0000 && c < 0x1_0000_0000 && d < 0x1_0000_0000
    ensures var half := 0x1_0000_0000;
            var mid := b * d / half + a * d % half + b * c % half + 0x8000_0000;
            && a * c + a * d / half + b * c / half + mid / half
               == RoundedProduct(a * half + b, c * half + d)
            && mid < 0x1_0000_0000_0000_0000
            && a * c + a * d / half + b * c / half + mid / half < 0x1_0000_0000_0000_0000
  {
    HalfProducts(a, b, c, d);
    SplitProduct(a, b, c, d);
    SumOfHalves(a * c, a * d, b * c, b * d);
  }

  lemma SplitProduct(a: nat, b: nat, c: nat, d: nat)
    ensures (a * 0x1_0000_0000 + b) * (c * 0x1_0000_0000 + d)
         == a * c * 0x1_0000_0000_0000_0000 + (a * d + b * c) * 0x1_0000_0000 + b * d
  {
    var h := 0x1_0000_0000;
    calc {
      (a * h + b) * (c * h + d);
      (a * h) * (c * h) + (a * h) * d + b * (c * h) + b * d;
    }
  }

  lemma SumOfHalves(ac: nat, ad: nat, bc: nat, bd: nat)
    requires ac <= 0xffff_fffe_0000_0001 && ad <= 0xffff_fffe_0000_0001
    requires bc <= 0xffff_fffe_0000_0001 && bd <= 0xffff_fffe_0000_0001
    ensures var half := 0x1_0000_0000;
            var mid := bd / half + ad % half + bc % half + 0x8000_0000;
            && (ac * 0x1_0000_0000_0000_0000 + (ad + bc) * half + bd + 0x8000_0000_0000_0000) / 0x1_0000_0000_0000_0000
               == ac + ad / half + bc / half + mid / half
            && ac + ad / half + bc / half + mid / half < 0x1_0000_0000_0000_0000
  {
  }

  lemma DoubleShift(f: int, n: nat)
    ensures f * Two(n + 1) == 2 * (f * Two(n))
  {
    assert Two(n + 1) == 2 * Two(n);
  }

  lemma DecodedValue(bits: uint64)
    ensures DoubleValue(bits) == Value(SignificandOf(bits), ExponentOf(bits))
  {
    hide RTwo;
    NormalValue(bits as int / 0x10_0000_0000_0000 % 2048, bits as int % 0x10_0000_0000_0000);
  }

  lemma NormalValue(E: int, T: nat)
    ensures (1.0 + T as real / 4503599627370496.0) * RTwo(E - 1023) == Value(T + 0x10_0000_0000_0000, E - 1075)
  {
    hide RTwo;
    var n := E - 1023 - (E - 1075);
    RTwo52(n);
    RTwoAdd(E - 1075, n);
    ScaleIn(T as real, RTwo(E - 1075));
  }

  lemma RTwo52(n: nat)
    requires 51 < n < 53
    ensures RTwo(n) == 4503599627370496.0
  {
    hide RTwo;
    RTwoNat(n);
    Two52(n);
  }

  lemma ScaleIn(t: real, p: real)
    ensures (1.0 + t / 4503599627370496.0) * (p * 4503599627370496.0) == (t + 4503599627370496.0) * p
  {
    var q := t / 4503599627370496.0;
    assert t == q * 4503599627370496.0;
  }

  lemma Two52(n: nat)
    requires 51 < n < 53
    ensures Two(n) == 0x10_0000_0000_0000
  {
    Two64(n + 12);
    TwoAdd(n, 12);
    Two8(8);
    TwoAdd(8, 4);
  }

  lemma ImplicitBit(shift: nat)
    requires shift <= 1
    ensures Two(52 + shift) == ShiftedBit(shift) as int
    ensures ShiftedBit(shift) == if shift == 0 then IMPLICIT_BIT else 2 * IMPLICIT_BIT
    ensures Two(53 + shift) == 2 * Two(52 + shift)
  {
    var n := 52 + shift;
    Two52(n - shift);
  }

  /** The exact bounds of the interval of reals that round to f * 2^e, with the
      finer lower half where the significand is a power of two. */
  function LowerValue(f: int, e: int): real {
    if f == IMPLICIT_BIT as int then Value(4 * f - 1, e - 2) else Value(2 * f - 1, e - 1)
  }

  function UpperValue(f: int, e: int): real {
    Value(2 * f + 1, e - 1)
  }

  /** Moves both bounds of x to one exponent, the upper one normalized. */
  method ComputeBoundaries(x: Float, lower: Float, upper: Float)
    requires lower != upper && lower != x && upper != x && 0 < x.f < 2 * IMPLICIT_BIT
    modifies lower, upper
    ensures 0x8000_0000_0000_0000 <= upper.f && lower.e == upper.e
    ensures x.e - 65 <= upper.e <= x.e - 11
    ensures x.f >= IMPLICIT_BIT ==> upper.e == x.e - 11
    ensures Value(upper.f as int, upper.e) == UpperValue(x.f as int, x.e)
    ensures Value(lower.f as int, lower.e) == LowerValue(x.f as int, x.e)
    ensures lower.f as int + 1536 <= upper.f as int
  {
    hide RTwo, Value;
    if x.f == IMPLICIT_BIT {
      lower.f, lower.e := 4 * x.f - 1, x.e - 2;
    } else {
      lower.f, lower.e := 2 * x.f - 1, x.e - 1;
    }
    upper.f, upper.e := 2 * x.f + 1, x.e - 1;
    ImplicitBit(1);
    upper.Normalize(1);
    ghost var n := x.e - 1 - upper.e;
    Shifted(2 * x.f as int + 1, upper.f as int, x.e - 1, upper.e);
    Gap(x.f as int, n);
    var shifted := lower.f as int * Two(lower.e - upper.e);
    Shifted(lower.f as int, shifted, lower.e, upper.e);
    lower.f := shifted as uint64;
    lower.e := upper.e;
  }

  lemma Shifted(f: int, g: int, e: int, d: int)
    requires d <= e && g == f * Two(e - d)
    ensures Value(g, d) == Value(f, e)
  {
    hide RTwo;
    RTwoNat(e - d);
    RTwoAdd(e - d, d);
    RealMul(f, Two(e - d));
    ProductShift(f as real, Two(e - d) as real, g as real, RTwo(d), RTwo(e));
  }

  lemma ProductShift(f: real, t: real, g: real, p: real, q: real)
    requires g == f * t && q == t * p
    ensures g * p == f * q
  {
    RMulAssoc(f, t, p);
  }

  lemma Gap(f: int, n: nat)
    requires n >= 10 && f > 0
    ensures (2 * f - 1) * Two(n) + 2048 <= (2 * f + 1) * Two(n)
    ensures (4 * f - 1) * Two(n - 1) + 1536 <= (2 * f + 1) * Two(n)
    ensures 0 <= (2 * f - 1) * Two(n) && 0 <= (4 * f - 1) * Two(n - 1)
  {
    TwoMonotone(9, n - 1);
    TwoOffset(9 + 1);
    var p := Two(n - 1);
    assert Two(n) == 2 * p && p >= 512;
    assert (2 * f + 1) * (2 * p) == (4 * f - 1) * p + 3 * p;
    MulMonotone(0, 2 * f - 1, 2 * p);
    MulMonotone(0, 4 * f - 1, p);
  }

  lemma TwoOffset(n: nat)
    requires 9 < n < 12
    ensures Two(n) == if n < 11 then 1024 else 2048
  {
    Two8(n - (n - 8));
    TwoAdd(8, n - 8);
  }

  lemma ShiftBound(f: int, g: int, n: nat, m: nat)
    requires 0 < f && g == f * Two(n) && g < 2 * Two(m)
    ensures n <= m
  {
    MulMonotone(1, f, Two(n));
    assert Two(m + 1) == 2 * Two(m);
    TwoLess(n, m + 1);
  }
}
