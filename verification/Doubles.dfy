/** The doubles as numbers: neighbours, order, and what reads back as what. */
module Doubles {
  import opened Machine
  import opened Powers
  import opened Fp

  predicate Finite(bits: uint64) {
    bits < 0x7ff0_0000_0000_0000
  }

  lemma ValueShift(f: int, e: int)
    ensures Value(2 * f, e - 1) == Value(f, e)
  {
    hide RTwo;
    RTwoStep(e - 1);
    assert e - 1 + 1 == e;
    RMulScale(2.0, f as real, RTwo(e - 1));
  }

  lemma ValueAdd(f: int, g: int, e: int)
    ensures Value(f + g, e) == Value(f, e) + Value(g, e)
  {
  }

  lemma ValuePositive(f: int, e: int)
    ensures f > 0 ==> Value(f, e) > 0.0
    ensures f >= 0 ==> Value(f, e) >= 0.0
  {
    hide RTwo;
    if f > 0 {
      RProductPositive(f as real, RTwo(e));
    }
  }

  lemma RProductPositive(x: real, y: real)
    requires x > 0.0 && y > 0.0
    ensures x * y > 0.0
  {
  }

  /** The next bit pattern is the next number: one more in the last place. */
  lemma NextDouble(bits: uint64)
    requires Finite(bits) && Finite(bits + 1)
    ensures DoubleValue(bits + 1) == Value(SignificandOf(bits) + 1, ExponentOf(bits))
  {
    hide DoubleValue, Value, SignificandOf, ExponentOf;
    DecodedValue(bits + 1);
    Carry(bits);
    ValueShift(SignificandOf(bits + 1), ExponentOf(bits + 1));
  }

  /** Counting up carries from the significand into the exponent. */
  lemma Carry(bits: uint64)
    requires Finite(bits) && Finite(bits + 1)
    ensures var f, e, f', e' := SignificandOf(bits), ExponentOf(bits), SignificandOf(bits + 1), ExponentOf(bits + 1);
            (f' == f + 1 && e' == e) || (2 * f' == f + 1 && e' == e + 1)
  {
    var E, T := bits as int / 0x10_0000_0000_0000, bits as int % 0x10_0000_0000_0000;
    if T == 0xf_ffff_ffff_ffff {
      assert (bits + 1) as int / 0x10_0000_0000_0000 == E + 1 && (bits + 1) as int % 0x10_0000_0000_0000 == 0;
    } else {
      assert (bits + 1) as int / 0x10_0000_0000_0000 == E && (bits + 1) as int % 0x10_0000_0000_0000 == T + 1;
    }
  }

  lemma {:induction false} Increasing(b: uint64, w: uint64)
    requires b <= w && Finite(w)
    ensures b < w ==> DoubleValue(b) < DoubleValue(w)
    decreases w - b
  {
    hide DoubleValue, Value, SignificandOf, ExponentOf;
    if b < w {
      NextDouble(b);
      DecodedValue(b);
      ValueAdd(SignificandOf(b), 1, ExponentOf(b));
      ValuePositive(1, ExponentOf(b));
      Increasing(b + 1, w);
    }
  }

  /** The upper boundary is the midpoint to the next double. */
  lemma UpperIsMidpoint(bits: uint64)
    requires Finite(bits) && Finite(bits + 1)
    ensures 2.0 * UpperValue(SignificandOf(bits), ExponentOf(bits)) == DoubleValue(bits) + DoubleValue(bits + 1)
  {
    hide DoubleValue, Value, SignificandOf, ExponentOf;
    var f, e := SignificandOf(bits), ExponentOf(bits);
    NextDouble(bits);
    DecodedValue(bits);
    ValueShift(2 * f + 1, e);
    ValueAdd(2 * f + 1, 2 * f + 1, e - 1);
    ValueAdd(f, f + 1, e);
  }

  /** The lower boundary is the midpoint to the previous double, except at the
      smallest normal double, where it lies closer, half way above the midpoint. */
  lemma LowerIsMidpoint(bits: uint64)
    requires PositiveFinite(bits)
    ensures 2.0 * LowerValue(SignificandOf(bits), ExponentOf(bits)) >= DoubleValue(bits - 1) + DoubleValue(bits)
    ensures 2.0 * LowerValue(SignificandOf(bits), ExponentOf(bits)) == DoubleValue(bits - 1) + DoubleValue(bits)
       <==> bits != IMPLICIT_BIT
  {
    hide DoubleValue, Value;
    var f, e := SignificandOf(bits), ExponentOf(bits);
    DecodedValue(bits);
    DecodedValue(bits - 1);
    Previous(bits);
    if f != IMPLICIT_BIT as int || bits == IMPLICIT_BIT {
      ValueAdd(f - 1, f, e);
      ValueAdd(2 * f - 1, 2 * f - 1, e - 1);
      ValueShift(2 * f - 1, e);
    } else {
      // the previous double has twice the precision
      ValueShift(f, e);
      ValueAdd(2 * f - 1, 2 * f, e - 1);
      ValueAdd(4 * f - 1, 4 * f - 1, e - 2);
      ValueShift(4 * f - 1, e - 1);
    }
    if bits == IMPLICIT_BIT {
      ValueShift(f, e);
      ValueShift(2 * f, e - 1);
      ValueAdd(4 * f - 1, 4 * f - 1, e - 2);
      ValueShift(4 * f - 1, e - 1);
      ValueShift(2 * f - 1, e);
      ValueShift(4 * f - 2, e - 1);
      ValueAdd(4 * f - 2, 1, e - 1);
      ValuePositive(1, e - 1);
    }
  }

  /** The significand and exponent of the previous double. */
  lemma Previous(bits: uint64)
    requires PositiveFinite(bits)
    ensures var f, e := SignificandOf(bits), ExponentOf(bits);
            if f == IMPLICIT_BIT as int && bits != IMPLICIT_BIT then
              SignificandOf(bits - 1) == 2 * f - 1 && ExponentOf(bits - 1) == e - 1
            else
              SignificandOf(bits - 1) == f - 1 && ExponentOf(bits - 1) == e
  {
    var E, T := bits as int / 0x10_0000_0000_0000, bits as int % 0x10_0000_0000_0000;
    if T == 0 {
      assert (bits - 1) as int / 0x10_0000_0000_0000 == E - 1;
      assert (bits - 1) as int % 0x10_0000_0000_0000 == 0xf_ffff_ffff_ffff;
    } else {
      assert (bits - 1) as int / 0x10_0000_0000_0000 == E && (bits - 1) as int % 0x10_0000_0000_0000 == T - 1;
    }
  }

  function Distance(x: real, y: real): real {
    if x < y then y - x else x - y
  }

  /** A reader that rounds to nearest reads r as this double. */
  ghost predicate ReadsAs(r: real, bits: uint64) {
    forall other :: Finite(other) && other != bits ==>
                      Distance(r, DoubleValue(bits)) < Distance(r, DoubleValue(other))
  }

  /** Every real strictly between the boundaries of a double is closer to it than
      to any other double. */
  lemma ReadsBack(bits: uint64, r: real)
    requires PositiveFinite(bits)
    requires LowerValue(SignificandOf(bits), ExponentOf(bits)) < r < UpperValue(SignificandOf(bits), ExponentOf(bits))
    ensures ReadsAs(r, bits)
  {
    forall other | Finite(other) && other != bits
      ensures Distance(r, DoubleValue(bits)) < Distance(r, DoubleValue(other))
    {
      Closer(bits, r, other);
    }
  }

  lemma Closer(bits: uint64, r: real, other: uint64)
    requires PositiveFinite(bits) && Finite(other) && other != bits
    requires LowerValue(SignificandOf(bits), ExponentOf(bits)) < r < UpperValue(SignificandOf(bits), ExponentOf(bits))
    ensures Distance(r, DoubleValue(bits)) < Distance(r, DoubleValue(other))
  {
    hide DoubleValue, Value, SignificandOf, ExponentOf, LowerValue, UpperValue;
    if other > bits {
      UpperIsMidpoint(bits);
      Increasing(bits, bits + 1);
      Increasing(bits + 1, other);
    } else {
      LowerIsMidpoint(bits);
      Increasing(bits - 1, bits);
      Increasing(other, bits - 1);
    }
  }
}
