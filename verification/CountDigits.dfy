/** The three ways the program counts the decimal digits of an unsigned integer. */
module CountDigits {
  import opened Powers
  import opened Decimal

  /** The position of the highest set bit, counted from 1. */
  function BitLength(n: nat): nat {
    if n == 0 then 0 else 1 + BitLength(n / 2)
  }

  /** n | 1 */
  function OrOne(n: nat): nat {
    if n % 2 == 0 then n + 1 else n
  }

  /** The table of powers of ten, with 0 in place of 1. */
  function ZeroOrPowerOf10(t: nat): nat
    requires t < 20
  {
    match t
    case 0 => 0 case 1 => 10 case 2 => 100
    case 3 => 1000 case 4 => 10000 case 5 => 100000
    case 6 => 1000000 case 7 => 10000000 case 8 => 100000000
    case 9 => 1000000000 case 10 => 10000000000 case 11 => 100000000000
    case 12 => 1000000000000 case 13 => 10000000000000 case 14 => 100000000000000
    case 15 => 1000000000000000 case 16 => 10000000000000000 case 17 => 100000000000000000
    case 18 => 1000000000000000000 case _ => 10000000000000000000
  }

  /** Powers of two up to 2^64, written out for the proof. */
  function PowerOf2(b: nat): (p: nat)
    requires b <= 64
    ensures p > 0
  {
    match b
    case 0 => 0x1 case 1 => 0x2 case 2 => 0x4 case 3 => 0x8
    case 4 => 0x10 case 5 => 0x20 case 6 => 0x40 case 7 => 0x80
    case 8 => 0x100 case 9 => 0x200 case 10 => 0x400 case 11 => 0x800
    case 12 => 0x1000 case 13 => 0x2000 case 14 => 0x4000 case 15 => 0x8000
    case 16 => 0x10000 case 17 => 0x20000 case 18 => 0x40000 case 19 => 0x80000
    case 20 => 0x100000 case 21 => 0x200000 case 22 => 0x400000 case 23 => 0x800000
    case 24 => 0x1000000 case 25 => 0x2000000 case 26 => 0x4000000 case 27 => 0x8000000
    case 28 => 0x10000000 case 29 => 0x20000000 case 30 => 0x40000000 case 31 => 0x80000000
    case 32 => 0x100000000 case 33 => 0x200000000 case 34 => 0x400000000 case 35 => 0x800000000
    case 36 => 0x1000000000 case 37 => 0x2000000000 case 38 => 0x4000000000 case 39 => 0x8000000000
    case 40 => 0x10000000000 case 41 => 0x20000000000 case 42 => 0x40000000000 case 43 => 0x80000000000
    case 44 => 0x100000000000 case 45 => 0x200000000000 case 46 => 0x400000000000 case 47 => 0x800000000000
    case 48 => 0x1000000000000 case 49 => 0x2000000000000 case 50 => 0x4000000000000 case 51 => 0x8000000000000
    case 52 => 0x10000000000000 case 53 => 0x20000000000000 case 54 => 0x40000000000000 case 55 => 0x80000000000000
    case 56 => 0x100000000000000 case 57 => 0x200000000000000 case 58 => 0x400000000000000 case 59 => 0x800000000000000
    case 60 => 0x1000000000000000 case 61 => 0x2000000000000000 case 62 => 0x4000000000000000 case 63 => 0x8000000000000000
    case _ => 0x10000000000000000
  }

  /** The branch-free count: about log10(2) times the bit length, corrected by one
      comparison with a power of ten. */
  function FastCount(n: nat): int
    requires n < 0x1_0000_0000_0000_0000
  {
    BitLengthBound(OrOne(n), 64);
    var t := BitLength(OrOne(n)) * 1233 / 4096;
    t - (if n < ZeroOrPowerOf10(t) then 1 else 0) + 1
  }

  lemma {:induction false} BitLengthIs(n: nat)
    ensures n < Two(BitLength(n))
    ensures n > 0 ==> BitLength(n) > 0 && Two(BitLength(n) - 1) <= n
  {
    if n > 1 {
      BitLengthIs(n / 2);
      assert Two(BitLength(n)) == 2 * Two(BitLength(n / 2));
      assert Two(BitLength(n) - 1) == 2 * Two(BitLength(n / 2) - 1);
    }
  }

  lemma BitLengthBound(n: nat, k: nat)
    requires 63 < k < 65 && n < 0x1_0000_0000_0000_0000
    ensures BitLength(n) <= k
  {
    Two64(k);
    BitLengthIs(n);
    if n > 0 {
      TwoLess(BitLength(n) - 1, k);
    }
  }

  lemma {:induction false} PowersOf2(b: nat)
    requires b <= 64
    ensures PowerOf2(b) == Two(b)
  {
    if b > 0 {
      PowersOf2(b - 1);
      if {
        case b < 20 => TwiceLow(b);
        case 20 <= b < 43 => TwiceMiddle(b);
        case 43 <= b => TwiceHigh(b);
      }
    }
  }

  lemma TwiceLow(b: nat)
    requires 0 < b < 20
    ensures PowerOf2(b) == 2 * PowerOf2(b - 1)
  {
  }

  lemma TwiceMiddle(b: nat)
    requires 20 <= b < 43
    ensures PowerOf2(b) == 2 * PowerOf2(b - 1)
  {
  }

  lemma TwiceHigh(b: nat)
    requires 43 <= b <= 64
    ensures PowerOf2(b) == 2 * PowerOf2(b - 1)
  {
  }

  lemma {:induction false} PowersOf10(t: nat)
    requires 0 < t < 20
    ensures ZeroOrPowerOf10(t) == Ten(t)
  {
    if t == 1 {
      assert Ten(t - 1) == 1;
    } else {
      PowersOf10(t - 1);
      hide Ten;
      TenFold(t);
      TenStep(t);
    }
  }

  lemma TenFold(t: nat)
    requires 1 < t < 20
    ensures ZeroOrPowerOf10(t) == 10 * ZeroOrPowerOf10(t - 1)
  {
  }

  lemma TenStep(t: nat)
    requires t > 0
    ensures Ten(t) == 10 * Ten(t - 1)
  {
  }

  /** How numbers of b bits lie among the powers of ten. */
  predicate Bracketed(b: nat)
    requires 0 < b <= 64
  {
    var t := b * 1233 / 4096;
    && t < 20
    && (t > 1 ==> ZeroOrPowerOf10(t - 1) <= PowerOf2(b - 1))
    && (t + 1 < 20 ==> PowerOf2(b) <= ZeroOrPowerOf10(t + 1))
  }

  lemma BracketLow(b: nat)
    requires 0 < b < 20
    ensures Bracketed(b)
  {
  }

  lemma BracketMiddle(b: nat)
    requires 20 <= b < 43
    ensures Bracketed(b)
  {
  }

  lemma BracketHigh(b: nat)
    requires 43 <= b <= 64
    ensures Bracketed(b)
  {
  }

  lemma BracketHolds(b: nat)
    requires 0 < b <= 64
    ensures Bracketed(b)
  {
    hide ZeroOrPowerOf10, PowerOf2;
    if {
      case b < 20 => BracketLow(b);
      case 20 <= b < 43 => BracketMiddle(b);
      case 43 <= b => BracketHigh(b);
    }
  }

  /** A number of b bits has t or t + 1 digits, t being 1233 b / 4096. */
  lemma BitsBoundDigits(m: nat, b: nat, t: nat)
    requires 0 < b <= 64 && Two(b - 1) <= m < Two(b) && t == b * 1233 / 4096
    requires m < 0x1_0000_0000_0000_0000
    ensures t < 20 && m < Ten(t + 1)
    ensures t > 1 ==> Ten(t - 1) <= m
  {
    hide ZeroOrPowerOf10, PowerOf2, Ten;
    BracketHolds(b);
    PowersOf2(b);
    PowersOf2(b - 1);
    TableEnds();
    TenStep(t + 1);
    if t == 0 {
      TwoMonotone(b, 3);
    } else {
      PowersOf10(t);
    }
    if t > 1 {
      PowersOf10(t - 1);
    }
    if t + 1 < 20 {
      PowersOf10(t + 1);
    }
  }

  /** The branch-free count is exact for every 64-bit value, zero included. */
  lemma FastCountExact(n: nat)
    requires n < 0x1_0000_0000_0000_0000
    ensures FastCount(n) == |Dec(n)|
  {
    hide ZeroOrPowerOf10, PowerOf2, Ten, Two, Dec, BitLength;
    var m := OrOne(n);
    BitLengthBound(m, 64);
    BitLengthIs(m);
    var t := BitLength(m) * 1233 / 4096;
    BitsBoundDigits(m, BitLength(m), t);
    TableEnds();
    if t > 0 {
      PowersOf10(t);
    }
    if t > 1 {
      PowerNotOdd(n, t - 1);
    }
    DecLengthIs(n, if n < ZeroOrPowerOf10(t) then t else t + 1);
  }

  /** Setting the low bit does not reach a power of ten. */
  lemma PowerNotOdd(n: nat, k: nat)
    requires k > 0 && Ten(k) <= OrOne(n)
    ensures Ten(k) <= n
  {
    TenStep(k);
    hide Ten;
  }

  lemma TableEnds()
    ensures ZeroOrPowerOf10(0) == 0 && ZeroOrPowerOf10(1) == 10 == Ten(1) && Ten(0) == 1
    ensures ZeroOrPowerOf10(19) == 10000000000000000000
  {
  }

  /** On 32-bit values only the first ten table entries are used. */
  lemma FastCount32(n: nat)
    requires n < 0x1_0000_0000
    ensures BitLength(OrOne(n)) * 1233 / 4096 <= 9
    ensures FastCount(n) == |Dec(n)| <= 10
  {
    hide BitLength, Dec, Two, Ten, ZeroOrPowerOf10, FastCount;
    FastCountExact(n);
    BitLengthIs(OrOne(n));
    Two32(32);
    TwoLess(BitLength(OrOne(n)) - 1, 32);
    DecLength(n);
    PowersOf10(10);
    TenthPower();
    if |Dec(n)| > 1 {
      TenLess(|Dec(n)| - 1, 10);
    }
  }

  lemma TenthPower()
    ensures ZeroOrPowerOf10(10) == 10000000000
  {
  }

  /** The portable count, four digits a round. */
  method CountByDivision(value: nat) returns (count: nat)
    ensures count == |Dec(value)|
  {
    var n := value;
    count := 1;
    while true
      invariant |Dec(value)| == |Dec(n)| + count - 1
      decreases n
    {
      if n < 10 { return count; }
      if n < 100 { return count + 1; }
      assert |Dec(n / 10)| == 1 + |Dec(n / 10 / 10)|;
      if n < 1000 { return count + 2; }
      if n < 10000 { return count + 3; }
      FourFewer(n);
      n := n / 10000;
      count := count + 4;
    }
  }

  lemma FourFewer(n: nat)
    requires n >= 10000
    ensures |Dec(n)| == |Dec(n / 10000)| + 4
  {
    assert n / 10 / 10 / 10 / 10 == n / 10000;
    assert |Dec(n)| == |Dec(n / 10)| + 1 == |Dec(n / 10 / 10)| + 2;
    assert |Dec(n / 10 / 10)| == |Dec(n / 10 / 10 / 10)| + 1 == |Dec(n / 10 / 10 / 10 / 10)| + 2;
  }
}
