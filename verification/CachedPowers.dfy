/** The table of 64-bit approximations of powers of ten, and the proof that every
    entry is the nearest 64-bit significand and that the entry chosen brings a
    scaled boundary into the exponent range the digit generator needs. */
module CachedPowers {
  import opened Powers

  const ENTRIES: nat := 87
  const FIRST_DEC_EXP: int := -348
  const DEC_EXP_STEP: int := 8

  /** The power is about significand * 2^exponent. The tail, which the program
      does not have, holds the next 32 bits (negative where the significand was
      rounded up); the accuracy proof needs it. */
  datatype Row = Row(significand: int, exponent: int, tail: int)

  /** Row i stands for the power of ten with exponent FIRST_DEC_EXP + DEC_EXP_STEP * i. */
  function Power(i: nat): Row
    requires i < ENTRIES
  {
    match i
    case 0 => Row(0xfa8fd5a0081c0288, -1220, 389204074)
    case 1 => Row(0xbaaee17fa23ebf76, -1193, 1568259312)
    case 2 => Row(0x8b16fb203055ac76, -1166, 1278987088)
    case 3 => Row(0xcf42894a5dce35ea, -1140, 1376144557)
    case 4 => Row(0x9a6bb0aa55653b2d, -1113, 1202861001)
    case 5 => Row(0xe61acf033d1a45df, -1087, 1874404487)
    case 6 => Row(0xab70fe17c79ac6ca, -1060, 1841128202)
    case 7 => Row(0xff77b1fcbebcdc4f, -1034, 636020892)
    case 8 => Row(0xbe5691ef416bd60c, -1007, 600610924)
    case 9 => Row(0x8dd01fad907ffc3c, -980, -1371691047)
    case 10 => Row(0xd3515c2831559a83, -954, 224025413)
    case 11 => Row(0x9d71ac8fada6c9b5, -927, 1870086083)
    case 12 => Row(0xea9c227723ee8bcb, -901, 1180571049)
    case 13 => Row(0xaecc49914078536d, -874, 1492838903)
    case 14 => Row(0x823c12795db6ce57, -847, 1992637705)
    case 15 => Row(0xc21094364dfb5637, -821, -1738992132)
    case 16 => Row(0x9096ea6f3848984f, -794, 1072747208)
    case 17 => Row(0xd77485cb25823ac7, -768, 2103653011)
    case 18 => Row(0xa086cfcd97bf97f4, -741, -2132237297)
    case 19 => Row(0xef340a98172aace5, -715, -2030335631)
    case 20 => Row(0xb23867fb2a35b28e, -688, -375496294)
    case 21 => Row(0x84c8d4dfd2c63f3b, -661, 703388148)
    case 22 => Row(0xc5dd44271ad3cdba, -635, 1089466850)
    case 23 => Row(0x936b9fcebb25c996, -608, -894366247)
    case 24 => Row(0xdbac6c247d62a584, -582, -549062841)
    case 25 => Row(0xa3ab66580d5fdaf6, -555, -1052876591)
    case 26 => Row(0xf3e2f893dec3f126, -529, 1518984100)
    case 27 => Row(0xb5b5ada8aaff80b8, -502, 226597266)
    case 28 => Row(0x87625f056c7c4a8b, -475, 289873111)
    case 29 => Row(0xc9bcff6034c13053, -449, -58084460)
    case 30 => Row(0x964e858c91ba2655, -422, 980027385)
    case 31 => Row(0xdff9772470297ebd, -396, 1501068844)
    case 32 => Row(0xa6dfbd9fb8e5b88f, -369, -884159152)
    case 33 => Row(0xf8a95fcf88747d94, -343, 1973701732)
    case 34 => Row(0xb94470938fa89bcf, -316, -133635057)
    case 35 => Row(0x8a08f0f8bf0f156b, -289, 462331595)
    case 36 => Row(0xcdb02555653131b6, -263, 932377619)
    case 37 => Row(0x993fe2c6d07b7fac, -236, -448354300)
    case 38 => Row(0xe45c10c42a2b3b06, -210, -1934058882)
    case 39 => Row(0xaa242499697392d3, -183, -572191790)
    case 40 => Row(0xfd87b5f28300ca0e, -157, -1949655698)
    case 41 => Row(0xbce5086492111aeb, -130, -1997227235)
    case 42 => Row(0x8cbccc096f5088cc, -103, -113277001)
    case 43 => Row(0xd1b71758e219652c, -77, -742170349)
    case 44 => Row(0x9c40000000000000, -50, 0)
    case 45 => Row(0xe8d4a51000000000, -24, 0)
    case 46 => Row(0xad78ebc5ac620000, 3, 0)
    case 47 => Row(0x813f3978f8940984, 30, 1073741824)
    case 48 => Row(0xc097ce7bc90715b3, 56, 1268715520)
    case 49 => Row(0x8f7e32ce7bea5c70, 83, -461242332)
    case 50 => Row(0xd5d238a4abe98068, 109, 1923387462)
    case 51 => Row(0x9f4f2726179a2245, 136, 30892610)
    case 52 => Row(0xed63a231d4c4fb27, 162, 1286056616)
    case 53 => Row(0xb0de65388cc8ada8, 189, 992322911)
    case 54 => Row(0x83c7088e1aab65db, 216, 2032560071)
    case 55 => Row(0xc45d1df942711d9a, 242, 1000722621)
    case 56 => Row(0x924d692ca61be758, 269, 1497114150)
    case 57 => Row(0xda01ee641a708dea, 295, -401707192)
    case 58 => Row(0xa26da3999aef774a, 322, -474063309)
    case 59 => Row(0xf209787bb47d6b85, 348, -1066955682)
    case 60 => Row(0xb454e4a179dd1877, 375, 700104262)
    case 61 => Row(0x865b86925b9bc5c2, 402, 193602451)
    case 62 => Row(0xc83553c5c8965d3d, 428, 1871872661)
    case 63 => Row(0x952ab45cfa97a0b3, 455, -577480076)
    case 64 => Row(0xde469fbd99a05fe3, 481, 1875533711)
    case 65 => Row(0xa59bc234db398c25, 508, 1140504963)
    case 66 => Row(0xf6c69a72a3989f5c, 534, -1968352098)
    case 67 => Row(0xb7dcbf5354e9bece, 561, 202501485)
    case 68 => Row(0x88fcf317f22241e2, 588, 1142942948)
    case 69 => Row(0xcc20ce9bd35c78a5, 614, 837550990)
    case 70 => Row(0x98165af37b2153df, 641, -1015907789)
    case 71 => Row(0xe2a0b5dc971f303a, 667, 776253029)
    case 72 => Row(0xa8d9d1535ce3b396, 694, 2132294055)
    case 73 => Row(0xfb9b7cd9a4a7443c, 720, 379076847)
    case 74 => Row(0xbb764c4ca7a44410, 747, -1653794092)
    case 75 => Row(0x8bab8eefb6409c1a, 774, 449874359)
    case 76 => Row(0xd01fef10a657842c, 800, 757822826)
    case 77 => Row(0x9b10a4e5e9913129, 827, -897781068)
    case 78 => Row(0xe7109bfba19c0c9d, 853, 214241895)
    case 79 => Row(0xac2820d9623bf429, 880, 1415792123)
    case 80 => Row(0x80444b5e7aa7cf85, 907, 2038485348)
    case 81 => Row(0xbf21e44003acdd2d, 933, -532215196)
    case 82 => Row(0x8e679c2f5e44ff8f, 960, 1460603371)
    case 83 => Row(0xd433179d9c8cb841, 986, 1604716179)
    case 84 => Row(0x9e19db92b4e31ba9, 1013, 1812439746)
    case 85 => Row(0xeb96bf6ebadf77d9, 1039, -467903534)
    case _ => Row(0xaf87023b9bf0ee6b, 1066, -342905476)
  }

  /** The 96-bit significand of entry i. */
  function Wide(i: nat): int
    requires i < ENTRIES
  {
    Power(i).significand * 0x1_0000_0000 + Power(i).tail
  }

  /** 2^26 or 2^27, the two steps between neighbouring exponents. */
  function Shift(d: int): int {
    if d < 27 then 0x400_0000 else 0x800_0000
  }

  /** Row i is well scaled and row i + 1 is row i times 10^8, up to rounding. */
  predicate RowOk(i: nat)
    requires i < ENTRIES
  {
    && 0x8000_0000_0000_0000 <= Power(i).significand < 0x1_0000_0000_0000_0000
    && 0x8000_0000_0000_0000_0000_0000 <= Wide(i)
    && -2147483000 <= Power(i).tail <= 2147483000
    && (i + 1 < ENTRIES ==>
          var d := Power(i + 1).exponent - Power(i).exponent;
          && 25 < d < 28
          && -120000000 <= Wide(i) * 100000000 - Wide(i + 1) * Shift(d) <= 120000000)
  }

  lemma Rows0(i: nat)
    requires 0 <= i < 8
    ensures RowOk(i)
  {
  }

  lemma Rows1(i: nat)
    requires 8 <= i < 16
    ensures RowOk(i)
  {
  }

  lemma Rows2(i: nat)
    requires 16 <= i < 24
    ensures RowOk(i)
  {
  }

  lemma Rows3(i: nat)
    requires 24 <= i < 32
    ensures RowOk(i)
  {
  }

  lemma Rows4(i: nat)
    requires 32 <= i < 40
    ensures RowOk(i)
  {
  }

  lemma Rows5(i: nat)
    requires 40 <= i < 48
    ensures RowOk(i)
  {
  }

  lemma Rows6(i: nat)
    requires 48 <= i < 56
    ensures RowOk(i)
  {
  }

  lemma Rows7(i: nat)
    requires 56 <= i < 64
    ensures RowOk(i)
  {
  }

  lemma Rows8(i: nat)
    requires 64 <= i < 72
    ensures RowOk(i)
  {
  }

  lemma Rows9(i: nat)
    requires 72 <= i < 80
    ensures RowOk(i)
  {
  }

  lemma Rows10(i: nat)
    requires 80 <= i < 87
    ensures RowOk(i)
  {
  }

  lemma RowHolds(i: nat)
    requires i < ENTRIES
    ensures RowOk(i)
  {
    if {
      case 0 <= i < 8 => Rows0(i);
      case 8 <= i < 16 => Rows1(i);
      case 16 <= i < 24 => Rows2(i);
      case 24 <= i < 32 => Rows3(i);
      case 32 <= i < 40 => Rows4(i);
      case 40 <= i < 48 => Rows5(i);
      case 48 <= i < 56 => Rows6(i);
      case 56 <= i < 64 => Rows7(i);
      case 64 <= i < 72 => Rows8(i);
      case 72 <= i < 80 => Rows9(i);
      case 80 <= i < 87 => Rows10(i);
    }
  }

  // ----- Accuracy ------------------------------------------------------------

  function DecExp(i: nat): int {
    FIRST_DEC_EXP + DEC_EXP_STEP * i
  }

  /** What the 96-bit significand should be, exactly. */
  ghost function TrueWide(i: nat): real
    requires i < ENTRIES
  {
    RTen(DecExp(i)) * RTwo(32 - Power(i).exponent)
  }

  lemma ShiftIsPower(d: int)
    requires 25 < d < 28
    ensures RTwo(d) == Shift(d) as real
  {
    hide RTwo;
    RTwoNat(d);
    Two32(d + (32 - d));
    TwoAdd(d, 32 - d);
    var k := 32 - d;
    assert Two(k) == if d < 27 then 64 else 32 by {
      assert Two(k - 2) == if d < 27 then 16 else 8 by {
        assert Two(k - 4) == if d < 27 then 4 else 2;
      }
    }
  }

  lemma TenTo8(n: int)
    requires 7 < n < 9
    ensures RTen(n) == 100000000.0
  {
    hide RTen;
    RTenNat(n);
    assert Ten(n - 2) == 1000000 by {
      assert Ten(n - 4) == 10000 by {
        assert Ten(n - 6) == 100 by {
          assert Ten(n - 8) == 1;
        }
      }
    }
    assert Ten(n) == 100000000;
  }

  /** Consecutive powers differ by 10^8 and by the shift of the exponents. */
  lemma TrueStep(k: int, e: int, f: int)
    requires 25 < f - e < 28
    ensures RTen(k + 8) * RTwo(32 - f) * Shift(f - e) as real == RTen(k) * RTwo(32 - e) * 100000000.0
  {
    hide RTen, RTwo;
    ShiftIsPower(f - e);
    var n := DEC_EXP_STEP;
    TenTo8(n);
    RTenAdd(k, n);
    RTwoAdd(32 - f, f - e);
    assert 32 - f + (f - e) == 32 - e;
    var p, q, r := RTen(k), RTwo(32 - f), RTwo(f - e);
    assert RTen(k + 8) == p * 100000000.0;
    assert RTwo(32 - e) == q * r;
    calc {
      RTen(k + 8) * q * r;
      p * 100000000.0 * q * r;
      p * (q * r) * 100000000.0;
    }
  }

  /** 2^94, the unit in which the error bounds of the 96-bit rows are counted. */
  const PARTS: real := 19807040628566084398385987584.0

  /** t and w differ by at most n parts in 2^94. */
  ghost predicate Near(t: real, w: real, n: real) {
    -(n * w) <= (t - w) * PARTS <= n * w
  }

  /** The linear part of a step up: x and y are the errors of a row and the next. */
  lemma BoundUp(x: real, y: real, w': real, nw: real, nw': real, r: real, nr: real, d: real)
    requires d == 67108864.0 || d == 134217728.0
    requires -nw <= x <= nw
    requires y * d == x * 100000000.0 + r * PARTS
    requires 100000000.0 * nw == d * nw' + nr
    requires -120000000.0 <= r <= 120000000.0 && -12000000000.0 <= nr <= 12000000000.0
    requires w' >= 2.0 * PARTS
    ensures -(nw' + w') <= y <= nw' + w'
  {
  }

  lemma BoundDown(x: real, y: real, w: real, nw: real, nw': real, r: real, nr: real, d: real)
    requires d == 67108864.0 || d == 134217728.0
    requires -nw' <= y <= nw'
    requires y * d == x * 100000000.0 + r * PARTS
    requires 100000000.0 * nw == d * nw' + nr
    requires -120000000.0 <= r <= 120000000.0 && -12000000000.0 <= nr <= 12000000000.0
    requires w >= 2.0 * PARTS
    ensures -(nw + w) <= x <= nw + w
  {
  }

  lemma ErrorStep(t: real, w: real, t': real, w': real, d: real, r: real)
    requires t' * d == t * 100000000.0 && r == w * 100000000.0 - w' * d
    ensures (t' - w') * PARTS * d == (t - w) * PARTS * 100000000.0 + r * PARTS
  {
    assert (t' - w') * d == (t - w) * 100000000.0 + r;
    assert (t' - w') * PARTS * d == ((t' - w') * d) * PARTS;
  }

  lemma ScaledBound(n: real, w: real, w': real, d: real, r: real)
    requires r == w * 100000000.0 - w' * d && 0.0 <= n <= 100.0
    requires -120000000.0 <= r <= 120000000.0
    ensures 100000000.0 * (n * w) == d * (n * w') + n * r
    ensures -12000000000.0 <= n * r <= 12000000000.0
  {
    assert n * (w * 100000000.0) == n * (w' * d + r);
    assert n * (w' * d + r) == n * (w' * d) + n * r;
    assert n * (w' * d) == d * (n * w');
    RMulNonNegative(n, 120000000.0 - r);
    RMulNonNegative(n, 120000000.0 + r);
  }

  lemma NearStepBounds(t: real, w: real, n: real, t': real, w': real, d: real)
    requires 0.0 <= n <= 100.0
    requires d == 67108864.0 || d == 134217728.0
    requires t' * d == t * 100000000.0
    requires -120000000.0 <= w * 100000000.0 - w' * d <= 120000000.0
    requires w >= 2.0 * PARTS && w' >= 2.0 * PARTS
    ensures Near(t, w, n) ==> Near(t', w', n + 1.0)
    ensures Near(t', w', n) ==> Near(t, w, n + 1.0)
  {
    var r := w * 100000000.0 - w' * d;
    ScaledBound(n, w, w', d, r);
    ErrorStep(t, w, t', w', d, r);
    var x, y := (t - w) * PARTS, (t' - w') * PARTS;
    if Near(t, w, n) {
      BoundUp(x, y, w', n * w, n * w', r, n * r, d);
      assert (n + 1.0) * w' == n * w' + w';
    }
    if Near(t', w', n) {
      BoundDown(x, y, w, n * w, n * w', r, n * r, d);
      assert (n + 1.0) * w == n * w + w;
    }
  }

  /** The middle row is 10^4, which fits 64 bits exactly. */
  lemma MiddleRowExact(k: int, e: int)
    requires 3 < k < 5 && -51 < e < -49
    ensures RTen(k) * RTwo(32 - e) == 0x9c40_0000_0000_0000_0000_0000 as real
  {
    hide RTwo, RTen;
    RTenNat(k);
    RTwoNat(32 - e);
    assert Ten(k) == 10000 by {
      assert Ten(k - 2) == 100;
    }
    var n := 32 - e;
    Two64(n - 18);
    TwoAdd(n - 18, 18);
    Two32(18 + 14);
    TwoAdd(18, 14);
    assert Two(14) == 16384 by {
      Two8(8);
      TwoAdd(8, 6);
    }
  }

  lemma MiddleNear()
    ensures Near(TrueWide(44), Wide(44) as real, 0.0)
  {
    hide RTen, RTwo;
    MiddleRowExact(DecExp(44), Power(44).exponent);
  }

  /** 10^4 is exact; the error grows by one part in 2^94 a row from there. */
  lemma {:induction false} WideNear(i: nat)
    requires i < ENTRIES
    ensures Near(TrueWide(i), Wide(i) as real, FromMiddle(i) as real)
    decreases FromMiddle(i)
  {
    hide RTen, RTwo, Power, Near, TrueWide, Wide;
    if i == 44 {
      MiddleNear();
    } else {
      var j := if i < 44 then i + 1 else i - 1;
      WideNear(j);
      if i < 44 {
        NearStep(i, TrueWide(i), TrueWide(j), FromMiddle(j) as real);
      } else {
        NearStep(j, TrueWide(j), TrueWide(i), FromMiddle(j) as real);
      }
    }
  }

  function FromMiddle(i: nat): nat {
    if i < 44 then 44 - i else i - 44
  }

  lemma NearStep(i: nat, t: real, t': real, n: real)
    requires i + 1 < ENTRIES && t == TrueWide(i) && t' == TrueWide(i + 1) && 0.0 <= n <= 100.0
    ensures Near(t, Wide(i) as real, n) ==> Near(t', Wide(i + 1) as real, n + 1.0)
    ensures Near(t', Wide(i + 1) as real, n) ==> Near(t, Wide(i) as real, n + 1.0)
  {
    hide RTen, RTwo, Power, Near;
    RowHolds(i);
    RowHolds(i + 1);
    TrueStep(DecExp(i), Power(i).exponent, Power(i + 1).exponent);
    var d := Shift(Power(i + 1).exponent - Power(i).exponent);
    RealMul(Wide(i + 1), d);
    NearStepBounds(t, Wide(i) as real, n, t', Wide(i + 1) as real, d as real);
  }

  lemma RTwo32()
    ensures RTwo(32) == 4294967296.0
  {
    hide RTwo;
    RTwoNat(32);
    Two32(32);
  }

  /** Entry i's power of ten, scaled to a 64-bit significand. */
  ghost function TrueSignificand(i: nat): real
    requires i < ENTRIES
  {
    RTen(DecExp(i)) * RTwo(-Power(i).exponent)
  }

  lemma RoundingBound(n: nat, w: int, m: int, tail: int, t: real, v: real)
    requires n <= 44 && Near(t, w as real, n as real)
    requires 0 <= m < 0x1_0000_0000_0000_0000 && w == m * 0x1_0000_0000 + tail
    requires -2147483000 <= tail <= 2147483000 && t == v * 4294967296.0
    ensures -0.5 < v - m as real < 0.5
  {
    MulMonotone(n, 44, if w < 0 then -w else w);
    RealMul(n, w);
  }

  /** Every entry is within half a unit of the power of ten it stands for. */
  lemma TableAccurate(i: nat)
    requires i < ENTRIES
    ensures -0.5 < TrueSignificand(i) - Power(i).significand as real < 0.5
    ensures 0x8000_0000_0000_0000 <= Power(i).significand < 0x1_0000_0000_0000_0000
  {
    hide RTen, RTwo, Power, Near;
    WideNear(i);
    RowHolds(i);
    var e, p := Power(i).exponent, RTen(DecExp(i));
    RTwo32();
    RTwoAdd(-e, 32);
    assert -e + 32 == 32 - e;
    RMulAssoc(p, RTwo(-e), 4294967296.0);
    RoundingBound(FromMiddle(i), Wide(i), Power(i).significand, Power(i).tail, TrueWide(i), TrueSignificand(i));
  }

  // ----- Choice of an entry ----------------------------------------------------

  const ONE_OVER_LOG2_10: real := 0.30102999566398114

  function Ceiling(x: real): int {
    -(-x).Floor
  }

  /** The entry for a least binary exponent, from the product
      (minExponent + 63) * ONE_OVER_LOG2_10 as the floating-point unit rounds it. */
  function CachedIndex(product: real): int {
    (Ceiling(product) - FIRST_DEC_EXP - 1) / DEC_EXP_STEP + 1
  }

  /** Row i is the right one for exactly those products that select it. */
  predicate SelectsRow(i: nat)
    requires i < ENTRIES
  {
    && (Power(i).exponent + 64) as real * ONE_OVER_LOG2_10 > DecExp(i) as real + 0.000001
    && (Power(i).exponent + 35) as real * ONE_OVER_LOG2_10 <= (DecExp(i) - DEC_EXP_STEP) as real - 0.000001
    && (Power(i).exponent + 63) as real * ONE_OVER_LOG2_10 <= DecExp(i) as real - 0.000001
  }

  lemma Selects0(i: nat)
    requires 0 <= i < 8
    ensures SelectsRow(i)
  {
  }

  lemma Selects1(i: nat)
    requires 8 <= i < 16
    ensures SelectsRow(i)
  {
  }

  lemma Selects2(i: nat)
    requires 16 <= i < 24
    ensures SelectsRow(i)
  {
  }

  lemma Selects3(i: nat)
    requires 24 <= i < 32
    ensures SelectsRow(i)
  {
  }

  lemma Selects4(i: nat)
    requires 32 <= i < 40
    ensures SelectsRow(i)
  {
  }

  lemma Selects5(i: nat)
    requires 40 <= i < 48
    ensures SelectsRow(i)
  {
  }

  lemma Selects6(i: nat)
    requires 48 <= i < 56
    ensures SelectsRow(i)
  {
  }

  lemma Selects7(i: nat)
    requires 56 <= i < 64
    ensures SelectsRow(i)
  {
  }

  lemma Selects8(i: nat)
    requires 64 <= i < 72
    ensures SelectsRow(i)
  {
  }

  lemma Selects9(i: nat)
    requires 72 <= i < 80
    ensures SelectsRow(i)
  {
  }

  lemma Selects10(i: nat)
    requires 80 <= i < 87
    ensures SelectsRow(i)
  {
  }

  lemma SelectsRows(i: nat)
    requires i < ENTRIES
    ensures SelectsRow(i)
  {
    if {
      case 0 <= i < 8 => Selects0(i);
      case 8 <= i < 16 => Selects1(i);
      case 16 <= i < 24 => Selects2(i);
      case 24 <= i < 32 => Selects3(i);
      case 32 <= i < 40 => Selects4(i);
      case 40 <= i < 48 => Selects5(i);
      case 48 <= i < 56 => Selects6(i);
      case 56 <= i < 64 => Selects7(i);
      case 64 <= i < 72 => Selects8(i);
      case 72 <= i < 80 => Selects9(i);
      case 80 <= i < 87 => Selects10(i);
    }
  }

  lemma ExponentBracket(minExponent: int, product: real, k: int, e: int)
    requires -0.000001 < product - (minExponent + 63) as real * ONE_OVER_LOG2_10 < 0.000001
    requires (k - 8) as real < product <= k as real
    requires (e + 64) as real * ONE_OVER_LOG2_10 > k as real + 0.000001
    requires (e + 35) as real * ONE_OVER_LOG2_10 <= (k - 8) as real - 0.000001
    ensures minExponent <= e < minExponent + 28
  {
  }

  /** The product of a least exponent as the floating-point unit may round it. */
  predicate ProductOf(minExponent: int, product: real) {
    -0.000001 < product - (minExponent + 63) as real * ONE_OVER_LOG2_10 < 0.000001
  }

  lemma ChosenBracket(minExponent: int, product: real)
    requires -1150 <= minExponent <= 1020 && ProductOf(minExponent, product)
    ensures 0 < CachedIndex(product) < ENTRIES
    ensures minExponent <= Power(CachedIndex(product)).exponent < minExponent + 28
    ensures product > (DecExp(CachedIndex(product)) - 8) as real
  {
    hide Power;
    var c := Ceiling(product);
    assert (c - 1) as real < product <= c as real;
    assert -330 <= c <= 330;
    var i := CachedIndex(product);
    assert DecExp(i) - 8 < c <= DecExp(i);
    SelectsRows(i);
    ExponentBracket(minExponent, product, DecExp(i), Power(i).exponent);
  }

  lemma {:induction false} ExponentsGrow(i: nat, j: nat)
    requires i <= j < ENTRIES
    ensures Power(i).exponent + 26 * (j - i) <= Power(j).exponent <= Power(i).exponent + 27 * (j - i)
  {
    hide Power;
    if i < j {
      ExponentsGrow(i, j - 1);
      RowHolds(j - 1);
      var d := Power(j).exponent - Power(j - 1).exponent;
      assert 25 < d < 28;
    }
  }

  /** An earlier entry would have needed a smaller product. */
  lemma EarlierTooSmall(minExponent: int, product: real, j: nat, k: int)
    requires j < ENTRIES && ProductOf(minExponent, product) && product > k as real && DecExp(j) <= k
    ensures Power(j).exponent < minExponent
  {
    SelectsRows(j);
    hide Power;
  }

  /** Row `i` is the first whose exponent is no less than asked. */
  predicate FirstRow(i: int, minExponent: int) {
    && 0 <= i < ENTRIES && minExponent <= Power(i).exponent
    && forall j: nat :: j < i ==> Power(j).exponent < minExponent
  }

  /** Some row lies within three of the exponent asked for. */
  predicate RowWithinThree(minExponent: int) {
    exists j: nat :: j < ENTRIES && minExponent <= Power(j).exponent <= minExponent + 3
  }

  /** For every exponent a double can bring, and however the product was rounded, the
      entry chosen is the first whose exponent is no less than asked; so the exponent is
      at most 26 above. */
  lemma ChosenExponent(minExponent: int, product: real)
    requires -1150 <= minExponent <= 1020 && ProductOf(minExponent, product)
    ensures FirstRow(CachedIndex(product), minExponent)
    ensures Power(CachedIndex(product)).exponent <= minExponent + 26
  {
    hide Power, ProductOf, SelectsRow, CachedIndex;
    ChosenBracket(minExponent, product);
    var i := CachedIndex(product);
    forall j: nat | j < i
      ensures Power(j).exponent < minExponent
    {
      EarlierTooSmall(minExponent, product, j, DecExp(i) - 8);
    }
    ExponentsGrow(i - 1, i);
    assert Power(i - 1).exponent < minExponent;
  }

  /** The bound of three promised for the excess holds exactly when the table has an
      entry that close above. */
  lemma WithinThreeIff(minExponent: int, product: real)
    requires -1150 <= minExponent <= 1020 && ProductOf(minExponent, product)
    ensures 0 <= CachedIndex(product) < ENTRIES
    ensures Power(CachedIndex(product)).exponent <= minExponent + 3 <==> RowWithinThree(minExponent)
  {
    hide Power, ProductOf, CachedIndex;
    ChosenExponent(minExponent, product);
    var i := CachedIndex(product);
    forall j: nat | j < ENTRIES && minExponent <= Power(j).exponent <= minExponent + 3
      ensures Power(i).exponent <= minExponent + 3
    {
      ExponentsGrow(i, j);
    }
  }

  /** Asked for a least exponent of 4, the table gives 30. */
  lemma TwentySixAbove(product: real)
    requires ProductOf(4, product)
    ensures CachedIndex(product) == 47 && Power(47).exponent == 30
  {
    assert 20.0 < product < 21.0;
    assert Ceiling(product) == 21;
  }
}
