/** The fixed-point printer of 32-bit integers, and its agreement with plain decimal. */
module Itoa {
  import opened Machine
  import opened Powers
  import opened Decimal
  import CountDigits

  /** The two characters of the digit table at 2 * index. */
  function Pair(index: nat): (s: string)
    requires index < 100
    ensures s == Padded(index, 2)
  {
    assert Padded(index / 10, 1) == Padded(index / 10 / 10, 0) + [DigitChar(index / 10 % 10)];
    [DigitChar(index / 10), DigitChar(index % 10)]
  }

  /** The extra fraction bits kept for n + 2 digits. */
  function ExtraBits(n: nat): (a: nat)
    requires n < 9
    ensures a <= 26
  {
    assert n < 5 ==> n / 5 == 0;
    assert n >= 5 ==> n / 5 == 1;
    n / 5 * n * 53 / 16
  }

  /** 2^(32 + a) / 10^n + 1 - n / 9, the 4.32 fixed-point reciprocal. */
  function Reciprocal(n: nat): int
    requires 0 < n < 9
  {
    TableNonzero(n);
    CountDigits.PowerOf2(32 + ExtraBits(n)) / CountDigits.ZeroOrPowerOf10(n) + 1 - n / 9
  }

  lemma TableNonzero(n: nat)
    requires 0 < n < 9
    ensures CountDigits.ZeroOrPowerOf10(n) > 0
  {
  }

  /** t / 2^32 approximates u / 10^k from above, well enough for all k digits. */
  predicate Approximates(t: int, u: int, k: nat) {
    u * 0x1_0000_0000 <= t * Ten(k) < (u + 1) * 0x1_0000_0000
  }

  /** The fixed-point value the printer starts from. */
  function Start(n: nat, u: nat): int
    requires 0 < n < 9
  {
    Reciprocal(n) * u / CountDigits.PowerOf2(ExtraBits(n)) + n / 5 * 4
  }

  /** The error of the reciprocal stays below one unit in the last digit for
      every number of n + 2 digits, and the product stays within 64 bits. */
  lemma StartAccurate(n: nat, u: nat)
    requires 0 < n < 9 && u < 0x1_0000_0000 && Ten(n + 1) <= u < Ten(n + 2)
    ensures Reciprocal(n) * u < 0x1_0000_0000_0000_0000
    ensures Approximates(Start(n, u), u, n)
  {
    CountDigits.PowersOf10(n);
    CountDigits.PowersOf10(n + 1);
    CountDigits.PowersOf10(n + 2);
    hide Ten, Start, Reciprocal;
    if {
      case n == 1 => Accurate1(u);
      case n == 2 => Accurate2(u);
      case n == 3 => Accurate3(u);
      case n == 4 => Accurate4(u);
      case n == 5 => Accurate5(u);
      case n == 6 => Accurate6(u);
      case n == 7 => Accurate7(u);
      case n == 8 => Accurate8(u);
    }
  }

  lemma Accurate1(u: nat)
    requires 100 <= u < 1000
    ensures Reciprocal(1) * u < 0x1_0000_0000_0000_0000
    ensures u * 0x1_0000_0000 <= Start(1, u) * 10 < (u + 1) * 0x1_0000_0000
  {
    assert Reciprocal(1) == 429496730;
  }

  lemma Accurate2(u: nat)
    requires 1000 <= u < 10000
    ensures Reciprocal(2) * u < 0x1_0000_0000_0000_0000
    ensures u * 0x1_0000_0000 <= Start(2, u) * 100 < (u + 1) * 0x1_0000_0000
  {
    assert Reciprocal(2) == 42949673;
  }

  lemma Accurate3(u: nat)
    requires 10000 <= u < 100000
    ensures Reciprocal(3) * u < 0x1_0000_0000_0000_0000
    ensures u * 0x1_0000_0000 <= Start(3, u) * 1000 < (u + 1) * 0x1_0000_0000
  {
    assert Reciprocal(3) == 4294968;
  }

  lemma Accurate4(u: nat)
    requires 100000 <= u < 1000000
    ensures Reciprocal(4) * u < 0x1_0000_0000_0000_0000
    ensures u * 0x1_0000_0000 <= Start(4, u) * 10000 < (u + 1) * 0x1_0000_0000
  {
    assert Reciprocal(4) == 429497;
  }

  lemma Accurate5(u: nat)
    requires 1000000 <= u < 10000000
    ensures Reciprocal(5) * u < 0x1_0000_0000_0000_0000
    ensures u * 0x1_0000_0000 <= Start(5, u) * 100000 < (u + 1) * 0x1_0000_0000
  {
    assert Reciprocal(5) == 2814749768;
  }

  lemma Accurate6(u: nat)
    requires 10000000 <= u < 100000000
    ensures Reciprocal(6) * u < 0x1_0000_0000_0000_0000
    ensures u * 0x1_0000_0000 <= Start(6, u) * 1000000 < (u + 1) * 0x1_0000_0000
  {
    assert Reciprocal(6) == 2251799814;
  }

  lemma Accurate7(u: nat)
    requires 100000000 <= u < 1000000000
    ensures Reciprocal(7) * u < 0x1_0000_0000_0000_0000
    ensures u * 0x1_0000_0000 <= Start(7, u) * 10000000 < (u + 1) * 0x1_0000_0000
  {
    assert Reciprocal(7) == 3602879702;
  }

  lemma Accurate8(u: nat)
    requires 1000000000 <= u < 4294967296
    ensures Reciprocal(8) * u < 0x1_0000_0000_0000_0000
    ensures u * 0x1_0000_0000 <= Start(8, u) * 100000000 < (u + 1) * 0x1_0000_0000
  {
    assert Reciprocal(8) == 2882303762;
  }

  /** What lg picks for a value below 2^32: the floor of its decimal logarithm. */
  function Lg(n: uint32): (g: nat)
    ensures g + 1 == |Dec(n as nat)| <= 10
  {
    LgExact(n as nat);
    if n < 100 then
      if n < 10 then 0 else 1
    else if n < 1000000 then
      if n < 10000 then
        if n < 1000 then 2 else 3
      else if n < 100000 then 4 else 5
    else if n < 100000000 then
      if n < 10000000 then 6 else 7
    else if n < 1000000000 then 8 else 9
  }

  lemma LgExact(n: nat)
    requires n < 0x1_0000_0000
    ensures |Dec(n)| ==
            if n < 10 then 1 else if n < 100 then 2 else if n < 1000 then 3 else if n < 10000 then 4
            else if n < 100000 then 5 else if n < 1000000 then 6 else if n < 10000000 then 7
            else if n < 100000000 then 8 else if n < 1000000000 then 9 else 10
  {
    CountDigits.FastCount32(n);
    DecLength(n);
    var k := |Dec(n)|;
    CountDigits.PowersOf10(k);
    if k > 1 {
      CountDigits.PowersOf10(k - 1);
    }
    hide Ten, Dec;
    CountDigits.TableEnds();
  }

  /** u without its last k digits. */
  function High(u: nat, k: nat): nat {
    if k == 0 then u else High(u / 10, k - 1)
  }

  /** The last k digits of u. */
  function Low(u: nat, k: nat): nat {
    if k == 0 then 0 else 10 * Low(u / 10, k - 1) + u % 10
  }

  lemma {:induction false} HighLow(u: nat, k: nat)
    ensures u == High(u, k) * Ten(k) + Low(u, k) && Low(u, k) < Ten(k)
  {
    if k > 0 {
      HighLow(u / 10, k - 1);
      assert Ten(k) == 10 * Ten(k - 1);
      assert High(u, k) == High(u / 10, k - 1) && Low(u, k) == 10 * Low(u / 10, k - 1) + u % 10;
      hide Ten, High, Low;
      OneMoreDigit(u, High(u, k), Low(u / 10, k - 1), Ten(k - 1));
    } else {
      assert Ten(0) == 1;
    }
  }

  lemma OneMoreDigit(u: nat, h: nat, l: nat, T: nat)
    requires u / 10 == h * T + l && l < T
    ensures u == h * (10 * T) + (10 * l + u % 10) && 10 * l + u % 10 < 10 * T
  {
    assert h * (10 * T) == 10 * (h * T);
  }

  lemma {:induction false} HighOfLow(u: nat, k: nat, j: nat)
    requires j <= k
    ensures High(Low(u, k), j) == Low(High(u, j), k - j)
    ensures Low(Low(u, k), j) == Low(u, j)
    ensures High(u, k) == High(High(u, j), k - j)
  {
    if j > 0 {
      HighOfLow(u / 10, k - 1, j - 1);
      assert Low(u, k) / 10 == Low(u / 10, k - 1) && Low(u, k) % 10 == u % 10;
    }
  }

  /** The whole and the fraction of an approximation of u: the leading digits, and
      an approximation of the k digits that remain. */
  lemma Split(t: nat, u: nat, k: nat)
    requires Approximates(t, u, k)
    ensures t / 0x1_0000_0000 == High(u, k)
    ensures Approximates(t % 0x1_0000_0000, Low(u, k), k)
  {
    HighLow(u, k);
    hide Ten, High, Low;
    var T, q, f := Ten(k), t / 0x1_0000_0000, t % 0x1_0000_0000;
    SplitProduct(q, f, T);
    SameQuotient(High(u, k), Low(u, k), T, q, u);
  }

  lemma SplitProduct(q: nat, f: nat, T: nat)
    requires f < 0x1_0000_0000 && T > 0
    ensures (q * 0x1_0000_0000 + f) * T == q * T * 0x1_0000_0000 + f * T
    ensures 0 <= f * T < T * 0x1_0000_0000
    ensures (q + 1) * T == q * T + T
  {
    MulMonotone(f + 1, 0x1_0000_0000, T);
    assert (f + 1) * T == f * T + T;
    MulMonotone(0, f, T);
  }

  lemma SameQuotient(h: nat, l: nat, T: nat, q: nat, u: nat)
    requires u == h * T + l && l < T && q * T <= u < q * T + T
    ensures q == h
  {
    if h < q {
      MulMonotone(h + 1, q, T);
    } else if h > q {
      MulMonotone(q + 1, h, T);
    }
  }

  /** Multiplying the fraction moves the next digits into the whole part. */
  lemma MovePair(f: nat, r: nat, k: nat)
    requires k >= 2 && Approximates(f, r, k)
    ensures Approximates(100 * f, r, k - 2)
  {
    assert Ten(k) == 10 * Ten(k - 1) == 100 * Ten(k - 2);
    hide Ten;
    assert f * (100 * Ten(k - 2)) == 100 * f * Ten(k - 2);
  }

  lemma MoveDigit(f: nat, r: nat, k: nat)
    requires k >= 1 && Approximates(f, r, k)
    ensures Approximates(10 * f, r, k - 1)
  {
    assert Ten(k) == 10 * Ten(k - 1);
    hide Ten;
    assert f * (10 * Ten(k - 1)) == 10 * f * Ten(k - 1);
  }

  /** Fixed-width digits split at any place. */
  lemma {:induction false} PaddedSplit(u: nat, m: nat, k: nat)
    ensures Padded(u, m + k) == Padded(High(u, k), m) + Padded(Low(u, k), k)
  {
    if k == 0 {
      assert Padded(u, m) + [] == Padded(u, m);
    } else {
      PaddedSplit(u / 10, m, k - 1);
      assert Low(u, k) / 10 == Low(u / 10, k - 1) && Low(u, k) % 10 == u % 10;
      Associate(Padded(High(u, k), m), Padded(Low(u / 10, k - 1), k - 1), [DigitChar(u % 10)]);
    }
  }

  lemma Associate(x: string, y: string, z: string)
    ensures x + y + z == x + (y + z)
  {
  }

  /** The canonical digits are the fixed-width ones of the right width. */
  lemma {:induction false} PaddedIsDec(n: nat)
    ensures Padded(n, |Dec(n)|) == Dec(n)
  {
    if n >= 10 {
      PaddedIsDec(n / 10);
    } else {
      assert Padded(n, 1) == Padded(n / 10, 0) + [DigitChar(n % 10)];
    }
  }

  method WritePair(buffer: array<char>, at: nat, index: nat)
    requires index < 100 && at + 2 <= buffer.Length
    modifies buffer
    ensures buffer[..at] == old(buffer[..at])
    ensures buffer[..at + 2] == buffer[..at] + Padded(index, 2)
  {
    var pair := Pair(index);
    buffer[at], buffer[at + 1] := pair[0], pair[1];
  }

  /** The first fixed-point quotient of u, in 64-bit arithmetic. */
  method FixedPoint(n: nat, u: uint32) returns (t: uint64)
    requires 0 < n < 9 && Ten(n + 1) <= u as int < Ten(n + 2)
    ensures Approximates(t as int, u as int, n)
  {
    StartAccurate(n, u as nat);
    StartFits(n, u as nat);
    hide Ten, Approximates, Start, Reciprocal, ExtraBits, CountDigits.PowerOf2;
    t := Reciprocal(n) as uint64 * u as uint64;
    t := t / CountDigits.PowerOf2(ExtraBits(n)) as uint64 + (n / 5 * 4) as uint64;
  }

  /** Writes the N + 1 digits of u, two at a time off a fixed-point quotient. */
  method On(N: nat, u: uint32, buffer: array<char>) returns (end: nat)
    requires N + 1 == |Dec(u as nat)| <= 10 && N + 1 <= buffer.Length
    modifies buffer
    ensures end == N + 1 && buffer[..end] == Dec(u as nat)
  {
    hide Dec, Ten, Padded, Approximates, High, Low;
    ghost var v := u as nat;
    PaddedIsDec(v);
    DecRange(v, N);
    if N == 0 {
      OneDigit(v);
      buffer[0] := DigitChar(u as nat);
    } else if N == 1 {
      WritePair(buffer, 0, u as nat);
    } else {
      var n := N - 1;
      var t := FixedPoint(n, u);
      Split(t as nat, v, n);
      FirstPair(v, n);
      WritePair(buffer, 0, (t / 0x1_0000_0000) as nat);
      assert buffer[..0] == [] && buffer[..2] == Padded(High(v, n), 2);
      var i := 2;
      while i < N
        invariant 2 <= i <= N + 1 && i % 2 == 0
        invariant buffer[..i] == Padded(High(v, N + 1 - i), i)
        invariant Approximates((t % 0x1_0000_0000) as int, Low(v, N + 1 - i), N + 1 - i)
      {
        ghost var k := N + 1 - i;
        ghost var r := Low(v, k);
        MovePair((t % 0x1_0000_0000) as nat, r, k);
        t := 100 * (t % 0x1_0000_0000);
        Split(t as nat, r, k - 2);
        NextPair(v, k, i);
        WritePair(buffer, i, (t / 0x1_0000_0000) as nat);
        i := i + 2;
      }
      if N % 2 == 0 {
        LastOne(v, (t % 0x1_0000_0000) as nat, N);
        buffer[N] := DigitChar((10 * (t % 0x1_0000_0000) / 0x1_0000_0000) as nat);
        assert buffer[..N + 1] == buffer[..N] + [buffer[N]];
      } else {
        NoDigitsLeft(v);
      }
    }
    end := N + 1;
  }

  lemma DecRange(v: nat, N: nat)
    requires N + 1 == |Dec(v)|
    ensures v < Ten(N + 1) && (N > 0 ==> Ten(N) <= v)
    ensures N == 0 ==> v < 10
    ensures N == 1 ==> v < 100
  {
    DecLength(v);
    assert Ten(1) == 10;
    assert Ten(2) == 100;
  }

  lemma OneDigit(v: nat)
    requires v < 10
    ensures Padded(v, 1) == [DigitChar(v)]
  {
    assert Padded(v / 10, 0) == [];
  }

  lemma NoDigitsLeft(v: nat)
    ensures High(v, 0) == v
  {
  }

  /** No step of the first quotient leaves 64 bits. */
  lemma StartFits(n: nat, u: nat)
    requires 0 < n < 9 && u < 0x1_0000_0000 && Reciprocal(n) * u < 0x1_0000_0000_0000_0000
    requires Ten(n + 1) <= u && Approximates(Start(n, u), u, n)
    ensures 0 <= Reciprocal(n) < 0x1_0000_0000_0000_0000
    ensures CountDigits.PowerOf2(ExtraBits(n)) < 0x1_0000_0000_0000_0000
    ensures var q := Reciprocal(n) * u / CountDigits.PowerOf2(ExtraBits(n));
            0 <= q && q + n / 5 * 4 == Start(n, u) < 0x1_0000_0000_0000_0000
  {
    ReciprocalPositive(n);
    hide Ten, Reciprocal, CountDigits.PowerOf2, ExtraBits;
    MulMonotone(1, u, Reciprocal(n));
    MulMonotone(0, u, Reciprocal(n));
    QuotientNonNegative(Reciprocal(n) * u, CountDigits.PowerOf2(ExtraBits(n)));
    CountDigits.PowersOf2(ExtraBits(n));
    Two32(32);
    TwoMonotone(ExtraBits(n), 32);
    MulMonotone(1, Ten(n), Start(n, u));
  }

  lemma ReciprocalPositive(n: nat)
    requires 0 < n < 9
    ensures Reciprocal(n) >= 0
  {
    TableNonzero(n);
    hide CountDigits.PowerOf2, CountDigits.ZeroOrPowerOf10;
    QuotientNonNegative(CountDigits.PowerOf2(32 + ExtraBits(n)), CountDigits.ZeroOrPowerOf10(n));
  }

  lemma QuotientNonNegative(x: int, p: int)
    requires x >= 0 && p > 0
    ensures x / p >= 0
  {
    if x / p < 0 {
      assert x == x / p * p + x % p;
      MulMonotone(x / p, -1, p);
    }
  }

  /** What is left above the last n of at most n + 2 digits is a pair. */
  lemma FirstPair(v: nat, n: nat)
    requires v < Ten(n + 2)
    ensures High(v, n) < 100
  {
    HighLow(v, n);
    assert Ten(n + 2) == 100 * Ten(n);
    hide Ten, High, Low;
    if High(v, n) >= 100 {
      MulMonotone(100, High(v, n), Ten(n));
    }
  }

  /** Writing the next pair extends the digits written by two places. */
  lemma NextPair(v: nat, k: nat, i: nat)
    requires k >= 2
    ensures High(Low(v, k), k - 2) < 100
    ensures Padded(High(v, k - 2), i + 2) == Padded(High(v, k), i) + Padded(High(Low(v, k), k - 2), 2)
    ensures Low(Low(v, k), k - 2) == Low(v, k - 2)
  {
    hide Padded, High, Low, Ten;
    HighOfLow(v, k, k - 2);
    PaddedSplit(High(v, k - 2), i, 2);
    HighLow(v, k);
    FirstPair(Low(v, k), k - 2);
  }

  lemma LastOne(v: nat, f: nat, N: nat)
    requires Approximates(f, Low(v, 1), 1)
    ensures 10 * f / 0x1_0000_0000 == v % 10
    ensures Padded(v, N + 1) == Padded(High(v, 1), N) + [DigitChar(v % 10)]
  {
    assert Low(v / 10, 0) == 0 && High(v / 10, 0) == v / 10;
    assert Low(v, 1) == v % 10 && High(v, 1) == v / 10;
    assert High(v % 10, 0) == v % 10;
    MoveDigit(f, v % 10, 1);
    Split(10 * f, v % 10, 0);
  }

  /** The fixed-point printer writes exactly the canonical decimal digits, for
      every 32-bit value. */
  method FormatLg(u: uint32, buffer: array<char>) returns (end: nat)
    requires buffer.Length >= 10
    modifies buffer
    ensures end <= buffer.Length && buffer[..end] == Dec(u as nat)
  {
    end := On(Lg(u), u, buffer);
  }
}
