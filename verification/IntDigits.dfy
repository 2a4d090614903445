/** The backwards digit writers: decimal with optional thousands separators, and
    the power-of-two radices. */
module IntDigits {
  import opened Powers
  import opened Decimal

  // ----- What is to be written ------------------------------------------------

  /** Decimal digits in groups of three, counted from the right. */
  function Grouped(n: nat, sep: string): string {
    if n < 1000 then Dec(n) else Grouped(n / 1000, sep) + sep + Padded(n % 1000, 3)
  }

  lemma GroupedStep(n: nat, sep: string)
    requires n >= 1000
    ensures Grouped(n, sep) == Grouped(n / 1000, sep) + sep + Padded(n % 1000, 3)
  {
  }

  /** The number of characters reserved for a grouped number. */
  lemma {:induction false} GroupedLength(n: nat, sep: string)
    ensures |Grouped(n, sep)| == |Dec(n)| + |sep| * ((|Dec(n)| - 1) / 3)
  {
    if n >= 1000 {
      GroupedLength(n / 1000, sep);
      ThreeFewer(n);
      GroupedStep(n, sep);
      hide Grouped, Dec, Padded;
      var d := |Dec(n / 1000)|;
      assert |Grouped(n, sep)| == |Grouped(n / 1000, sep)| + |sep| + 3;
      OneMoreGroup(|sep|, d);
    } else {
      BelowThousand(n);
    }
  }

  lemma OneMoreGroup(s: nat, d: nat)
    requires d > 0
    ensures s * ((d + 3 - 1) / 3) == s * ((d - 1) / 3) + s
  {
    var k := (d - 1) / 3;
    assert (d + 3 - 1) / 3 == k + 1;
    assert s * (k + 1) == s * k + s;
  }

  lemma BelowThousand(n: nat)
    requires n < 1000
    ensures |Dec(n)| <= 3
  {
    if n >= 10 {
      DecStep(n);
      if n >= 100 {
        DecStep(n / 10);
      }
    }
  }

  lemma DecStep(n: nat)
    requires n >= 10
    ensures Dec(n) == Dec(n / 10) + [DigitChar(n % 10)]
  {
  }

  lemma Thousands(n: nat)
    ensures n / 10 / 10 / 10 == n / 1000
    ensures n % 1000 / 100 == n / 10 / 10 % 10
    ensures n % 1000 / 10 % 10 == n / 10 % 10
    ensures n % 1000 % 10 == n % 10
  {
  }

  lemma Hundreds(v: nat)
    ensures v % 100 % 10 == v % 10 && v % 100 / 10 == v / 10 % 10 && v / 100 == v / 10 / 10
  {
  }

  lemma ThreeFewer(n: nat)
    requires n >= 1000
    ensures Dec(n) == Dec(n / 1000) + Padded(n % 1000, 3)
    ensures |Dec(n)| == |Dec(n / 1000)| + 3
  {
    hide Dec, Padded;
    DecStep(n);
    DecStep(n / 10);
    DecStep(n / 10 / 10);
    Thousands(n);
    LastThree(n % 1000);
    Three(Dec(n / 1000), DigitChar(n / 10 / 10 % 10), DigitChar(n / 10 % 10), DigitChar(n % 10));
  }

  lemma Three(x: string, a: char, b: char, c: char)
    ensures x + [a] + [b] + [c] == x + [a, b, c]
  {
  }

  lemma PaddedStep(l: nat, k: nat)
    requires k > 0
    ensures Padded(l, k) == Padded(l / 10, k - 1) + [DigitChar(l % 10)]
  {
  }

  lemma LastThree(l: nat)
    requires l < 1000
    ensures Padded(l, 3) == [DigitChar(l / 100), DigitChar(l / 10 % 10), DigitChar(l % 10)]
  {
    hide Padded;
    PaddedStep(l, 3);
    PaddedStep(l / 10, 2);
    PaddedStep(l / 10 / 10, 1);
    assert l / 10 / 10 == l / 100 && l / 10 / 10 % 10 == l / 10 / 10;
    assert Padded(l / 10 / 10 / 10, 0) == [];
    Three([], DigitChar(l / 100), DigitChar(l / 10 % 10), DigitChar(l % 10));
  }

  /** Taking the separators out of a grouped number leaves its digits. */
  lemma {:induction false} GroupedDigits(n: nat, sep: char)
    requires !IsDigit(sep)
    ensures Without(Grouped(n, [sep]), sep) == Dec(n)
  {
    if n >= 1000 {
      GroupedDigits(n / 1000, sep);
      ThreeFewer(n);
      var g, p := Grouped(n / 1000, [sep]), Padded(n % 1000, 3);
      WithoutConcat(g + [sep], p, sep);
      WithoutConcat(g, [sep], sep);
      assert Without([sep], sep) == [] by {
        assert [sep][1..] == [];
      }
      WithoutNone(p, sep);
      assert g + [sep] + p == Grouped(n, [sep]);
    } else {
      WithoutNone(Dec(n), sep);
    }
  }

  function Without(s: string, c: char): string {
    if s == [] then [] else (if s[0] == c then [] else [s[0]]) + Without(s[1..], c)
  }

  lemma {:induction false} WithoutConcat(s: string, t: string, c: char)
    ensures Without(s + t, c) == Without(s, c) + Without(t, c)
  {
    if s == [] {
      assert s + t == t;
    } else {
      assert (s + t)[1..] == s[1..] + t;
      WithoutConcat(s[1..], t, c);
    }
  }

  lemma {:induction false} WithoutNone(s: string, c: char)
    requires c !in s
    ensures Without(s, c) == s
  {
    if s != [] {
      WithoutNone(s[1..], c);
      assert [s[0]] + s[1..] == s;
    }
  }

  // ----- The backwards decimal writer -----------------------------------------

  /** What remains to be written for value when `phase` digits (modulo 3) have
      been written since the last separator. */
  function Leftwards(value: nat, phase: nat, sep: string): (s: string)
    ensures s != []
  {
    if value < 10 then [DigitChar(value)]
    else Leftwards(value / 10, (phase + 1) % 3, sep) + (if phase == 2 then sep else []) + [DigitChar(value % 10)]
  }

  lemma {:induction false} LeftwardsIsGrouped(n: nat, sep: string)
    ensures Leftwards(n, 0, sep) == Grouped(n, sep)
  {
    if n >= 1000 {
      LeftwardsIsGrouped(n / 1000, sep);
      LastThree(n % 1000);
      ThreeLeftwards(n, sep);
    } else {
      SmallLeftwards(n, sep);
    }
  }

  lemma LeftwardsStep(v: nat, phase: nat, sep: string)
    requires v >= 10 && phase < 3
    ensures Leftwards(v, phase, sep)
         == Leftwards(v / 10, (phase + 1) % 3, sep) + (if phase == 2 then sep else []) + [DigitChar(v % 10)]
  {
  }

  /** Three digits and one separator of a number above 999. */
  lemma ThreeLeftwards(n: nat, sep: string)
    requires n >= 1000
    ensures Leftwards(n, 0, sep) == Leftwards(n / 1000, 0, sep) + sep + Padded(n % 1000, 3)
  {
    hide Leftwards, Padded;
    LastThree(n % 1000);
    LeftwardsStep(n, 0, sep);
    LeftwardsStep(n / 10, 1, sep);
    LeftwardsStep(n / 10 / 10, 2, sep);
    Thousands(n);
    Assemble(Leftwards(n / 1000, 0, sep), sep, DigitChar(n / 10 / 10 % 10), DigitChar(n / 10 % 10), DigitChar(n % 10));
  }

  lemma Assemble(rest: string, sep: string, a: char, b: char, c: char)
    ensures rest + sep + [a] + [] + [b] + [] + [c] == rest + sep + [a, b, c]
  {
  }

  /** Below a thousand no separator is written. */
  lemma SmallLeftwards(n: nat, sep: string)
    requires n < 1000
    ensures Leftwards(n, 0, sep) == Dec(n)
  {
    if n >= 100 {
      LeftwardsStep(n / 10, 1, sep);
      assert Leftwards(n / 10 / 10, 2, sep) == [DigitChar(n / 10 / 10)] == Dec(n / 10 / 10);
      assert Dec(n / 10) == Dec(n / 10 / 10) + [DigitChar(n / 10 % 10)];
    }
    if n >= 10 {
      LeftwardsStep(n, 0, sep);
      assert Leftwards(n / 10, 1, sep) == Dec(n / 10);
    }
  }

  /** Without a separator the writer gives the plain digits. */
  lemma {:induction false} LeftwardsPlain(n: nat, phase: nat)
    ensures Leftwards(n, phase, []) == Dec(n)
  {
    if n >= 10 {
      LeftwardsPlain(n / 10, (phase + 1) % 3);
      assert Dec(n / 10) + [] + [DigitChar(n % 10)] == Dec(n);
    }
  }

  /** The separator functor: counts digits and writes sep after every third. */
  class ThousandsSep {
    const sep: string
    var digitIndex: nat

    constructor (sep: string)
      ensures this.sep == sep && digitIndex == 0
    {
      this.sep := sep;
      digitIndex := 0;
    }

    method Apply(buffer: array<char>, start: nat, at: nat) returns (pos: nat)
      requires start <= at <= buffer.Length
      requires (digitIndex + 1) % 3 == 0 ==> start + |sep| <= at
      modifies this, buffer
      ensures digitIndex == old(digitIndex) + 1
      ensures pos == at - (if digitIndex % 3 == 0 then |sep| else 0)
      ensures buffer[..start] == old(buffer[..start])
      ensures buffer[pos..] == (if digitIndex % 3 == 0 then sep else []) + old(buffer[at..])
    {
      digitIndex := digitIndex + 1;
      if digitIndex % 3 != 0 {
        return at;
      }
      pos := at - |sep|;
      forall k | 0 <= k < |sep| {
        buffer[pos + k] := sep[k];
      }
      assert buffer[pos..at] == sep;
      assert buffer[pos..] == buffer[pos..at] + buffer[at..];
    }
  }

  /** Writes value into buffer[start..start + numDigits], from the right, two digits
      a division, calling the functor after every digit but the leading one. */
  method FormatDecimal(buffer: array<char>, start: nat, value: nat, numDigits: nat, thousands: ThousandsSep)
    requires thousands.digitIndex == 0 && numDigits == |Grouped(value, thousands.sep)|
    requires start + numDigits <= buffer.Length
    modifies buffer, thousands
    ensures buffer[..] == old(buffer[..start]) + Grouped(value, thousands.sep) + old(buffer[start + numDigits..])
  {
    hide *;
    ghost var sep, rest := thousands.sep, buffer[start + numDigits..];
    LeftwardsIsGrouped(value, sep);
    var v := value;
    var pos := start + numDigits;
    while v >= 100
      invariant pos <= buffer.Length && start + |Leftwards(v, thousands.digitIndex % 3, sep)| == pos
      invariant Leftwards(v, thousands.digitIndex % 3, sep) + buffer[pos..] == Grouped(value, sep) + rest
      invariant buffer[..start] == old(buffer[..start])
    {
      var index := v % 100;
      Hundreds(v);
      pos := PushDigit(buffer, pos, start, index % 10, v, thousands);
      pos := PushDigit(buffer, pos, start, index / 10, v / 10, thousands);
      v := v / 100;
    }
    if v >= 10 {
      pos := PushDigit(buffer, pos, start, v % 10, v, thousands);
      v := v / 10;
    }
    OneLeftwards(v, thousands.digitIndex % 3, sep);
    ghost var after := buffer[pos..];
    pos := pos - 1;
    buffer[pos] := DigitChar(v);
    assert buffer[pos..] == [DigitChar(v)] + after;
    Whole(buffer[..], start, Grouped(value, sep), rest);
  }

  lemma OneLeftwards(v: nat, phase: nat, sep: string)
    requires v < 10
    ensures Leftwards(v, phase, sep) == [DigitChar(v)]
  {
  }

  /** Writes the last digit of v before what has been written, and calls the functor. */
  method PushDigit(buffer: array<char>, at: nat, start: nat, digit: nat, ghost v: nat, thousands: ThousandsSep)
    returns (pos: nat)
    requires v >= 10 && digit == v % 10 && at <= buffer.Length
    requires start + |Leftwards(v, thousands.digitIndex % 3, thousands.sep)| == at
    modifies buffer, thousands
    ensures pos <= buffer.Length && thousands.digitIndex == old(thousands.digitIndex) + 1
    ensures start + |Leftwards(v / 10, thousands.digitIndex % 3, thousands.sep)| == pos
    ensures Leftwards(v, old(thousands.digitIndex) % 3, thousands.sep) + old(buffer[at..])
         == Leftwards(v / 10, thousands.digitIndex % 3, thousands.sep) + buffer[pos..]
    ensures buffer[..start] == old(buffer[..start])
  {
    hide *;
    ghost var phase, tail, sep := thousands.digitIndex % 3, buffer[at..], thousands.sep;
    ghost var x, y := Leftwards(v / 10, (phase + 1) % 3, sep), if phase == 2 then sep else [];
    LeftwardsStep(v, phase, sep);
    assert (thousands.digitIndex + 1) % 3 == (phase + 1) % 3;
    assert |x| + |y| + 1 + start == at;
    SetDigit(buffer, at, start, DigitChar(digit));
    pos := thousands.Apply(buffer, start, at - 1);
    Joined(x, y, DigitChar(digit), tail);
    assert buffer[pos..] == y + ([DigitChar(digit)] + tail);
  }

  method SetDigit(buffer: array<char>, at: nat, ghost start: nat, c: char)
    requires start < at <= buffer.Length
    modifies buffer
    ensures buffer[..start] == old(buffer[..start])
    ensures buffer[at - 1..] == [c] + old(buffer[at..])
  {
    buffer[at - 1] := c;
  }

  lemma Joined(x: string, y: string, c: char, tail: string)
    ensures x + y + [c] + tail == x + (y + ([c] + tail))
  {
  }

  // ----- Power-of-two radices ---------------------------------------------------

  /** The three radices: 2, 8 and 16, by the bits of a digit. */
  predicate RadixBits(bits: nat) {
    bits == 1 || bits == 3 || bits == 4
  }

  /** value >> bits */
  function ShiftRight(value: nat, bits: nat): (v: nat)
    requires RadixBits(bits)
    ensures v <= value && (value > 0 ==> v < value)
  {
    if bits == 1 then value / 2 else if bits == 3 then value / 8 else value / 16
  }

  /** value & ((1 << bits) - 1) */
  function LowBits(value: nat, bits: nat): (d: nat)
    requires RadixBits(bits)
    ensures d < 16 && (bits < 4 ==> d < 8)
    ensures value == ShiftRight(value, bits) * RadixBase(bits) + d
  {
    if bits == 1 then value % 2 else if bits == 3 then value % 8 else value % 16
  }

  function RadixBase(bits: nat): nat
    requires RadixBits(bits)
  {
    if bits == 1 then 2 else if bits == 3 then 8 else 16
  }

  function RadixChar(d: nat, upper: bool): char
    requires d < 16
  {
    if d < 10 then DigitChar(d) else (if upper then 'A' else 'a') + (d - 10) as char
  }

  function CharRadix(c: char): nat {
    if '0' <= c <= '9' then c as nat - '0' as nat
    else if 'A' <= c <= 'F' then 10 + (c as nat - 'A' as nat)
    else if 'a' <= c <= 'f' then 10 + (c as nat - 'a' as nat)
    else 0
  }

  /** The canonical digits of n in the radix. */
  function RadixDigits(n: nat, bits: nat, upper: bool): (s: string)
    requires RadixBits(bits)
    ensures s != []
  {
    (if ShiftRight(n, bits) == 0 then [] else RadixDigits(ShiftRight(n, bits), bits, upper))
    + [RadixChar(LowBits(n, bits), upper)]
  }

  function RadixValue(s: string, bits: nat): nat
    requires RadixBits(bits)
  {
    if s == [] then 0 else RadixValue(s[..|s| - 1], bits) * RadixBase(bits) + CharRadix(s[|s| - 1])
  }

  /** The digits of every number read back as it, in either letter case. */
  lemma {:induction false} RadixRoundTrip(n: nat, bits: nat, upper: bool)
    requires RadixBits(bits)
    ensures RadixValue(RadixDigits(n, bits, upper), bits) == n
    ensures n > 0 ==> RadixDigits(n, bits, upper)[0] != '0'
  {
    var h, c := ShiftRight(n, bits), RadixChar(LowBits(n, bits), upper);
    assert CharRadix(c) == LowBits(n, bits);
    hide ShiftRight, LowBits, RadixBase, RadixChar, CharRadix;
    if h > 0 {
      RadixRoundTrip(h, bits, upper);
      RadixSnoc(RadixDigits(h, bits, upper), c, bits);
    } else {
      RadixSnoc([], c, bits);
      assert [] + [c] == [c];
    }
  }

  /** A digit of the radix, its letters in the case asked for. */
  predicate IsRadixDigit(c: char, bits: nat, upper: bool)
    requires RadixBits(bits)
  {
    if bits == 1 then '0' <= c <= '1'
    else if bits == 3 then '0' <= c <= '7'
    else '0' <= c <= '9' || (if upper then 'A' <= c <= 'F' else 'a' <= c <= 'f')
  }

  lemma {:induction false} RadixCase(n: nat, bits: nat, upper: bool)
    requires RadixBits(bits)
    ensures forall i :: 0 <= i < |RadixDigits(n, bits, upper)| ==> IsRadixDigit(RadixDigits(n, bits, upper)[i], bits, upper)
  {
    var h, d := ShiftRight(n, bits), LowBits(n, bits);
    LowBitsBelow(n, bits);
    assert IsRadixDigit(RadixChar(d, upper), bits, upper);
    hide IsRadixDigit, RadixChar, ShiftRight, LowBits;
    if h > 0 {
      RadixCase(h, bits, upper);
    }
  }

  lemma LowBitsBelow(n: nat, bits: nat)
    requires RadixBits(bits)
    ensures LowBits(n, bits) < RadixBase(bits)
  {
  }

  lemma RadixSnoc(s: string, c: char, bits: nat)
    requires RadixBits(bits)
    ensures RadixValue(s + [c], bits) == RadixValue(s, bits) * RadixBase(bits) + CharRadix(c)
    ensures RadixValue([], bits) == 0
  {
    assert (s + [c])[..|s|] == s;
  }

  method CountRadixDigits(value: nat, bits: nat) returns (numDigits: nat)
    requires RadixBits(bits)
    ensures forall upper :: numDigits == |RadixDigits(value, bits, upper)|
  {
    var n := ShiftRight(value, bits);
    numDigits := 1;
    while n != 0
      invariant forall upper ::
        |RadixDigits(value, bits, upper)| == numDigits + (if n == 0 then 0 else |RadixDigits(n, bits, upper)|)
      decreases n
    {
      numDigits := numDigits + 1;
      n := ShiftRight(n, bits);
    }
  }

  /** Writes value in the radix into buffer[start..start + numDigits], from the right. */
  method FormatUint(buffer: array<char>, start: nat, value: nat, numDigits: nat, bits: nat, upper: bool)
    requires RadixBits(bits) && numDigits == |RadixDigits(value, bits, upper)|
    requires start + numDigits <= buffer.Length
    modifies buffer
    ensures buffer[..] == old(buffer[..start]) + RadixDigits(value, bits, upper) + old(buffer[start + numDigits..])
  {
    hide RadixDigits, ShiftRight, LowBits, RadixChar, RadixBase;
    ghost var goal := RadixDigits(value, bits, upper) + buffer[start + numDigits..];
    var v, pos, more := value, start + numDigits, true;
    while more
      invariant pos <= buffer.Length && buffer[..start] == old(buffer[..start])
      invariant start + |Left(v, more, bits, upper)| == pos
      invariant Left(v, more, bits, upper) + buffer[pos..] == goal
      decreases more, v
    {
      ghost var written := buffer[pos..];
      RadixStep(v, bits, upper, written);
      SetDigit(buffer, pos, start, RadixChar(LowBits(v, bits), upper));
      pos := pos - 1;
      v := ShiftRight(v, bits);
      more := v != 0;
    }
    assert buffer[start..] == goal;
    Whole(buffer[..], start, RadixDigits(value, bits, upper), old(buffer[start + numDigits..]));
  }

  /** What the do-while loop still has to write. */
  function Left(v: nat, more: bool, bits: nat, upper: bool): string
    requires RadixBits(bits)
  {
    if more then RadixDigits(v, bits, upper) else []
  }

  lemma RadixStep(v: nat, bits: nat, upper: bool, written: string)
    requires RadixBits(bits)
    ensures var h, c := ShiftRight(v, bits), RadixChar(LowBits(v, bits), upper);
            && |Left(v, true, bits, upper)| == |Left(h, h != 0, bits, upper)| + 1
            && Left(v, true, bits, upper) + written == Left(h, h != 0, bits, upper) + ([c] + written)
            && (h != 0 ==> h < v)
  {
    var h, c := ShiftRight(v, bits), RadixChar(LowBits(v, bits), upper);
    Joined(Left(h, h != 0, bits, upper), [], c, written);
  }

  lemma Whole(s: string, start: nat, digits: string, rest: string)
    requires start <= |s| && s[start..] == digits + rest
    ensures s == s[..start] + digits + rest
  {
    assert s == s[..start] + s[start..];
  }
}
