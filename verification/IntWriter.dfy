/** Formatting an integer: sign, radix prefix, digits, precision, width and alignment. */
module IntWriter {
  import opened Powers
  import opened Decimal
  import opened IntDigits
  import CountDigits

  datatype Align = Default | Left | Right | Center | Numeric

  /** The format specifiers; typ is '\0' when none was given, precision -1. */
  datatype Spec = Spec(width: nat, fill: char, align: Align, precision: int, typ: char,
                       sign: bool, plus: bool, hash: bool)

  // ----- What is promised ---------------------------------------------------------

  function Max(x: int, y: int): int {
    if x < y then y else x
  }

  function Repeat(c: char, n: nat): (s: string)
    ensures |s| == n && forall i :: 0 <= i < n ==> s[i] == c
  {
    seq(n, _ => c)
  }

  /** Padding inside the number: up to the width with the fill character under
      numeric alignment, else up to the precision with zeros. */
  function Inner(prefix: string, digits: string, spec: Spec): string {
    if spec.align == Numeric then Repeat(spec.fill, Max(0, spec.width - |prefix| - |digits|))
    else Repeat('0', Max(0, spec.precision - |digits|))
  }

  /** How much of the padding outside the number goes to its left. */
  function LeftShare(padding: nat, align: Align): (l: nat)
    ensures l <= padding
  {
    match align
    case Left => 0
    case Numeric => 0
    case Center => padding / 2
    case _ => padding
  }

  /** The number as laid out: outer padding around prefix, inner padding and digits. */
  function Layout(prefix: string, digits: string, spec: Spec): string {
    var body := prefix + Inner(prefix, digits, spec) + digits;
    var padding := Max(0, spec.width - |body|);
    Repeat(spec.fill, LeftShare(padding, spec.align)) + body
    + Repeat(spec.fill, padding - LeftShare(padding, spec.align))
  }

  /** Exactly max(width, size) characters, size counting prefix and digits, the
      latter filled up to the precision unless the alignment is numeric. */
  lemma LayoutLength(prefix: string, digits: string, spec: Spec)
    ensures |Layout(prefix, digits, spec)| ==
            Max(spec.width, |prefix| + (if spec.align == Numeric then |digits| else Max(|digits|, spec.precision)))
  {
  }

  function SignPrefix(value: int, spec: Spec): string {
    if value < 0 then "-" else if spec.sign then (if spec.plus then "+" else " ") else ""
  }

  function Abs(value: int): nat {
    if value < 0 then -value else value
  }

  /** The text of value, or none for a type specifier that integers do not have. */
  function IntText(value: int, spec: Spec, sep: char): (text: seq<string>)
    ensures |text| <= 1
  {
    var sign := SignPrefix(value, spec);
    match spec.typ
    case '\0' => [Layout(sign, Dec(Abs(value)), spec)]
    case 'd' => [Layout(sign, Dec(Abs(value)), spec)]
    case 'x' => [Layout(sign + (if spec.hash then "0x" else ""), RadixDigits(Abs(value), 4, false), spec)]
    case 'X' => [Layout(sign + (if spec.hash then "0X" else ""), RadixDigits(Abs(value), 4, true), spec)]
    case 'b' => [Layout(sign + (if spec.hash then "0b" else ""), RadixDigits(Abs(value), 1, false), spec)]
    case 'B' => [Layout(sign + (if spec.hash then "0B" else ""), RadixDigits(Abs(value), 1, false), spec)]
    case 'o' =>
      var digits := RadixDigits(Abs(value), 3, false);
      [Layout(sign + (if spec.hash && spec.precision <= |digits| then "0" else ""), digits, spec)]
    case 'n' => [Layout(sign, Grouped(Abs(value), [sep]), spec)]
    case _ => []
  }

  lemma {:induction false} OnlyZeros(n: nat)
    ensures AllDigits(Repeat('0', n)) && Val(Repeat('0', n)) == 0
  {
    if n > 0 {
      OnlyZeros(n - 1);
      assert Repeat('0', n) == Repeat('0', n - 1) + ['0'];
      ValSnoc(Repeat('0', n - 1), '0');
    }
  }

  /** Zeros of the precision do not change the number read. */
  lemma {:induction false} LeadingZeros(n: nat, digits: string)
    requires AllDigits(digits)
    ensures AllDigits(Repeat('0', n) + digits) && Val(Repeat('0', n) + digits) == Val(digits)
    decreases |digits|
  {
    var z, k := Repeat('0', n), |digits| - 1;
    if digits == [] {
      OnlyZeros(n);
      assert z + digits == z;
    } else {
      LeadingZeros(n, digits[..k]);
      assert digits == digits[..k] + [digits[k]];
      assert z + digits == (z + digits[..k]) + [digits[k]];
      hide Val;
      ValSnoc(z + digits[..k], digits[k]);
      ValSnoc(digits[..k], digits[k]);
    }
  }

  lemma {:induction false} RadixZeros(n: nat, digits: string, bits: nat)
    requires RadixBits(bits)
    ensures RadixValue(Repeat('0', n) + digits, bits) == RadixValue(digits, bits)
    decreases |digits|, n
  {
    var z := Repeat('0', n);
    hide RadixValue;
    if digits != [] {
      var k := |digits| - 1;
      RadixZeros(n, digits[..k], bits);
      assert digits == digits[..k] + [digits[k]];
      assert z + digits == (z + digits[..k]) + [digits[k]];
      RadixSnoc(z + digits[..k], digits[k], bits);
      RadixSnoc(digits[..k], digits[k], bits);
    } else if n > 0 {
      RadixZeros(n - 1, digits, bits);
      assert z + [] == (Repeat('0', n - 1) + []) + ['0'];
      RadixSnoc(Repeat('0', n - 1) + [], '0', bits);
      RadixSnoc([], '0', bits);
    } else {
      assert z + digits == digits;
    }
  }

  lemma WithoutZeros(n: nat, sep: char, digits: string)
    requires sep != '0'
    ensures Without(Repeat('0', n) + digits, sep) == Repeat('0', n) + Without(digits, sep)
  {
    WithoutConcat(Repeat('0', n), digits, sep);
    WithoutNone(Repeat('0', n), sep);
  }

  function BitsOf(typ: char): (bits: nat)
    ensures RadixBits(bits)
  {
    if typ == 'x' || typ == 'X' then 4 else if typ == 'o' then 3 else 1
  }

  /** The digits, in the notation of the type letter, denote n. */
  predicate Denotes(typ: char, sep: char, digits: string, n: nat) {
    if typ == '\0' || typ == 'd' then AllDigits(digits) && Val(digits) == n
    else if typ == 'n' then AllDigits(Without(digits, sep)) && Val(Without(digits, sep)) == n
    else RadixValue(digits, BitsOf(typ)) == n
  }

  /** Sign and radix prefix. */
  function Prefix(value: int, spec: Spec): string {
    SignPrefix(value, spec) +
    match spec.typ
    case 'x' => if spec.hash then "0x" else ""
    case 'X' => if spec.hash then "0X" else ""
    case 'b' => if spec.hash then "0b" else ""
    case 'B' => if spec.hash then "0B" else ""
    case 'o' => if spec.hash && spec.precision <= |RadixDigits(Abs(value), 3, false)| then "0" else ""
    case _ => ""
  }

  /** The canonical digits for the type letter. */
  function Digits(value: int, typ: char, sep: char): string {
    if typ == '\0' || typ == 'd' then Dec(Abs(value))
    else if typ == 'n' then Grouped(Abs(value), [sep])
    else RadixDigits(Abs(value), BitsOf(typ), typ == 'X')
  }

  lemma TextIsLayout(value: int, spec: Spec, sep: char)
    requires IntText(value, spec, sep) != []
    ensures IntText(value, spec, sep) == [Layout(Prefix(value, spec), Digits(value, spec.typ, sep), spec)]
  {
    hide Layout, Dec, Grouped, RadixDigits, Abs;
    assert SignPrefix(value, spec) + "" == SignPrefix(value, spec);
  }

  /** Zeros of the precision change nothing, in any notation. */
  lemma ZerosDenote(n: nat, value: int, typ: char, sep: char)
    requires typ == 'n' ==> !IsDigit(sep)
    ensures Denotes(typ, sep, Repeat('0', n) + Digits(value, typ, sep), Abs(value))
  {
    hide Val, Dec, Grouped, RadixDigits, RadixValue, Without, Repeat;
    var m := Abs(value);
    if typ == '\0' || typ == 'd' {
      LeadingZeros(n, Dec(m));
      ValDec(m);
    } else if typ == 'n' {
      WithoutZeros(n, sep, Grouped(m, [sep]));
      GroupedDigits(m, sep);
      LeadingZeros(n, Dec(m));
      ValDec(m);
    } else {
      RadixZeros(n, RadixDigits(m, BitsOf(typ), typ == 'X'), BitsOf(typ));
      RadixRoundTrip(m, BitsOf(typ), typ == 'X');
    }
  }

  /** Prefix and digits with fill characters around or between them. */
  function Filled(fill: char, l: nat, prefix: string, k: nat, digits: string, r: nat): string {
    Repeat(fill, l) + (prefix + Repeat(fill, k) + digits) + Repeat(fill, r)
  }

  /** Where the padding goes: under numeric alignment only between prefix and digits; else
      zeros up to the precision go there, and the fill character goes right, left or half
      on either side with an odd one to the right; without an alignment, left. */
  predicate Placed(digits: string, spec: Spec, l: nat, k: nat, z: nat, r: nat) {
    match spec.align
    case Numeric => l == r == z == 0
    case Left => l == k == 0 && z == Max(0, spec.precision - |digits|)
    case Center => k == 0 && l <= r <= l + 1 && z == Max(0, spec.precision - |digits|)
    case _ => r == k == 0 && z == Max(0, spec.precision - |digits|)
  }

  lemma LayoutShape(prefix: string, digits: string, spec: Spec) returns (l: nat, k: nat, z: nat, r: nat)
    ensures Layout(prefix, digits, spec) == Filled(spec.fill, l, prefix, k, Repeat('0', z) + digits, r)
    ensures Placed(digits, spec, l, k, z, r)
  {
    var inner := Inner(prefix, digits, spec);
    var padding := Max(0, spec.width - |prefix + inner + digits|);
    l := LeftShare(padding, spec.align);
    r := padding - l;
    if spec.align == Numeric {
      k, z := |inner|, 0;
      assert Repeat('0', 0) + digits == digits;
    } else {
      k, z := 0, |inner|;
      hide Repeat;
      NothingBetween(prefix, spec.fill, inner, digits);
    }
  }

  lemma NothingBetween(prefix: string, fill: char, inner: string, digits: string)
    ensures prefix + inner + digits == prefix + Repeat(fill, 0) + (inner + digits)
  {
  }

  /** The text is that, and its digits, zeros included, read back as the value. */
  ghost predicate ReadsBackAs(text: string, value: int, spec: Spec, sep: char, l: nat, k: nat, z: nat, r: nat) {
    var digits := Repeat('0', z) + Digits(value, spec.typ, sep);
    && text == Filled(spec.fill, l, Prefix(value, spec), k, digits, r)
    && Placed(Digits(value, spec.typ, sep), spec, l, k, z, r)
    && Denotes(spec.typ, sep, digits, Abs(value))
  }

  /** For every type letter, alignment, width and precision the text is prefix and
      digits with nothing but fill characters around or, under numeric alignment,
      between them, on the side asked for, and the digits read back as the value. */
  lemma TextReadsBack(value: int, spec: Spec, sep: char) returns (l: nat, k: nat, z: nat, r: nat)
    requires IntText(value, spec, sep) != [] && (spec.typ == 'n' ==> !IsDigit(sep))
    ensures ReadsBackAs(IntText(value, spec, sep)[0], value, spec, sep, l, k, z, r)
  {
    TextIsLayout(value, spec, sep);
    hide Prefix, Digits, Denotes, IntText, Layout, Filled, Repeat;
    l, k, z, r := LayoutShape(Prefix(value, spec), Digits(value, spec.typ, sep), spec);
    ZerosDenote(z, value, spec.typ, sep);
  }

  /** Where the fill character is none of the text's own, dropping it leaves just the
      prefix and the digits that read back as the value, even under numeric alignment. */
  lemma UnfilledReadsBack(value: int, spec: Spec, sep: char) returns (z: nat)
    requires IntText(value, spec, sep) != [] && (spec.typ == 'n' ==> !IsDigit(sep))
    requires spec.fill != '0' && spec.fill !in Prefix(value, spec) && spec.fill !in Digits(value, spec.typ, sep)
    ensures var digits := Repeat('0', z) + Digits(value, spec.typ, sep);
            && Without(IntText(value, spec, sep)[0], spec.fill) == Prefix(value, spec) + digits
            && Denotes(spec.typ, sep, digits, Abs(value))
  {
    var l, k, r;
    l, k, z, r := TextReadsBack(value, spec, sep);
    var digits := Repeat('0', z) + Digits(value, spec.typ, sep);
    assert spec.fill !in digits;
    hide Prefix, Digits, Denotes, IntText;
    WithoutFilled(spec.fill, l, Prefix(value, spec), k, digits, r);
  }

  lemma WithoutFilled(fill: char, l: nat, prefix: string, k: nat, digits: string, r: nat)
    requires fill !in prefix && fill !in digits
    ensures Without(Filled(fill, l, prefix, k, digits, r), fill) == prefix + digits
  {
    hide Without, Repeat;
    WithoutFill(fill, l);
    WithoutFill(fill, k);
    WithoutFill(fill, r);
    WithoutNone(prefix, fill);
    WithoutNone(digits, fill);
    WithoutFour(Repeat(fill, l), prefix, Repeat(fill, k), digits, Repeat(fill, r), fill);
    assert prefix + "" + digits == prefix + digits;
  }

  lemma {:induction false} WithoutFill(c: char, n: nat)
    ensures Without(Repeat(c, n), c) == ""
  {
    if n > 0 {
      WithoutFill(c, n - 1);
      assert Repeat(c, n)[1..] == Repeat(c, n - 1);
    }
  }

  lemma WithoutFour(a: string, b: string, c: string, d: string, e: string, f: char)
    ensures Without(a, f) == Without(e, f) == "" ==>
              Without(a + (b + c + d) + e, f) == Without(b, f) + Without(c, f) + Without(d, f)
  {
    hide Without;
    WithoutConcat(a + (b + c + d), e, f);
    WithoutConcat(a, b + c + d, f);
    WithoutConcat(b + c, d, f);
    WithoutConcat(b, c, f);
    if Without(a, f) == Without(e, f) == "" {
      var w := Without(b + c + d, f);
      assert "" + w + "" == w;
    }
  }

  // ----- The writer -------------------------------------------------------------

  /** Two's complement: the machine's |value| for every value of the type, the
      least one included, is the true one. */
  lemma AbsoluteValue(value: int, modulus: int)
    requires modulus > 0 && -modulus <= 2 * value < 2 * modulus
    ensures var u := value % modulus;
            Abs(value) == if value < 0 then (0 - u) % modulus else u
  {
    if value < 0 {
      SmallModulus(value + modulus, modulus);
      SmallModulus(-value, modulus);
      Congruent(value, modulus);
      Congruent(0 - (value + modulus), modulus);
    } else {
      SmallModulus(value, modulus);
    }
  }

  lemma SmallModulus(x: int, m: int)
    requires 0 <= x < m
    ensures x % m == x
  {
  }

  lemma Congruent(x: int, m: int)
    requires m > 0
    ensures (x + m) % m == x % m
  {
    var q, r := x / m, x % m;
    assert x + m == (q + 1) * m + r;
    var q', r' := (x + m) / m, (x + m) % m;
    assert x + m == q' * m + r';
    if q' < q + 1 {
      MulMonotone(q' + 1, q + 1, m);
    } else if q' > q + 1 {
      MulMonotone(q + 2, q', m);
    }
  }

  class BasicWriter {
    var out: string
    var reserved: nat

    /** Makes room for n more characters. */
    method Reserve(n: nat)
      modifies this
      ensures out == old(out) && reserved == old(reserved) + n
    {
      reserved := reserved + n;
    }

    method FillN(n: nat, c: char)
      modifies this
      ensures out == old(out) + Repeat(c, n) && reserved == old(reserved)
    {
      out := out + Repeat(c, n);
    }

    method Copy(s: string)
      modifies this
      ensures out == old(out) + s && reserved == old(reserved)
    {
      out := out + s;
    }

    method WritePadded(size: nat, align: Align, spec: Spec, core: string)
      requires align != Default
      modifies this
      ensures reserved == old(reserved) + Max(spec.width, size)
      ensures var padding := Max(0, spec.width - size);
              out == old(out) + Repeat(spec.fill, LeftShare(padding, align)) + core
                     + Repeat(spec.fill, padding - LeftShare(padding, align))
    {
      var width := spec.width;
      if width <= size {
        Reserve(size);
        Copy(core);
        return;
      }
      Reserve(width);
      var padding := width - size;
      if align == Right {
        FillN(padding, spec.fill);
        Copy(core);
      } else if align == Center {
        var leftPadding := padding / 2;
        FillN(leftPadding, spec.fill);
        Copy(core);
        FillN(padding - leftPadding, spec.fill);
      } else {
        Copy(core);
        FillN(padding, spec.fill);
      }
    }

    /** Writes prefix and digits as laid out, in exactly the room reserved for them. */
    method WriteInt(numDigits: nat, prefix: string, spec: Spec, digits: string)
      requires numDigits == |digits|
      modifies this
      ensures out == old(out) + Layout(prefix, digits, spec)
      ensures reserved - old(reserved) == |out| - |old(out)|
    {
      hide Repeat;
      var size := |prefix| + numDigits;
      var fill := spec.fill;
      var padding := 0;
      if spec.align == Numeric {
        if spec.width > size {
          padding := spec.width - size;
          size := spec.width;
        }
      } else if spec.precision > numDigits {
        size := |prefix| + spec.precision;
        padding := spec.precision - numDigits;
        fill := '0';
      }
      var align := if spec.align == Default then Right else spec.align;
      assert Repeat(fill, padding) == Inner(prefix, digits, spec);
      WritePadded(size, align, spec, prefix + Repeat(fill, padding) + digits);
    }

    /** Writes value, of a type represented modulo 2^bits, as the specifiers say. */
    method Write(value: int, modulus: int, spec: Spec, sep: char) returns (ok: bool)
      requires modulus == 0x1_0000_0000 || modulus == 0x1_0000_0000_0000_0000
      requires -modulus <= 2 * value < 2 * modulus
      modifies this
      ensures ok == (IntText(value, spec, sep) != [])
      ensures ok ==> out == old(out) + IntText(value, spec, sep)[0]
      ensures !ok ==> out == old(out)
      ensures reserved - old(reserved) == |out| - |old(out)|
    {
      hide Layout, RadixDigits, Grouped, Dec, Inner, LeftShare;
      AbsoluteValue(value, modulus);
      var absValue := value % modulus;
      var prefix := "";
      if value < 0 {
        prefix := "-";
        absValue := (0 - absValue) % modulus;
      } else if spec.sign {
        prefix := if spec.plus then "+" else " ";
      }
      ok := true;
      assert prefix == SignPrefix(value, spec) && absValue == Abs(value) && prefix + "" == prefix;
      hide SignPrefix, Abs;
      match spec.typ {
        case '\0' => OnDec(absValue, prefix, spec);
        case 'd' => OnDec(absValue, prefix, spec);
        case 'x' => OnRadix(absValue, if spec.hash then prefix + "0x" else prefix, spec, 4, false);
        case 'X' => OnRadix(absValue, if spec.hash then prefix + "0X" else prefix, spec, 4, true);
        case 'b' => OnRadix(absValue, if spec.hash then prefix + "0b" else prefix, spec, 1, false);
        case 'B' => OnRadix(absValue, if spec.hash then prefix + "0B" else prefix, spec, 1, false);
        case 'o' => OnOct(absValue, prefix, spec);
        case 'n' => OnNum(absValue, prefix, spec, sep);
        case _ => ok := false;
      }
    }

    method OnDec(absValue: nat, prefix: string, spec: Spec)
      requires absValue < 0x1_0000_0000_0000_0000
      modifies this
      ensures out == old(out) + Layout(prefix, Dec(absValue), spec)
      ensures reserved - old(reserved) == |out| - |old(out)|
    {
      CountDigits.FastCountExact(absValue);
      var numDigits: int := CountDigits.FastCount(absValue);
      NoSeparator(absValue);
      var digits := DecimalText(absValue, numDigits, "");
      WriteInt(numDigits, prefix, spec, digits);
    }

    method OnRadix(absValue: nat, prefix: string, spec: Spec, bits: nat, upper: bool)
      requires RadixBits(bits)
      modifies this
      ensures out == old(out) + Layout(prefix, RadixDigits(absValue, bits, upper), spec)
      ensures reserved - old(reserved) == |out| - |old(out)|
    {
      var numDigits := CountRadixDigits(absValue, bits);
      var digits := RadixText(absValue, numDigits, bits, upper);
      WriteInt(numDigits, prefix, spec, digits);
    }

    method OnOct(absValue: nat, prefix: string, spec: Spec)
      modifies this
      ensures var digits := RadixDigits(absValue, 3, false);
              out == old(out)
                     + Layout(prefix + (if spec.hash && spec.precision <= |digits| then "0" else ""), digits, spec)
      ensures reserved - old(reserved) == |out| - |old(out)|
    {
      var numDigits := CountRadixDigits(absValue, 3);
      var full := if spec.hash && spec.precision <= numDigits then prefix + "0" else prefix + "";
      var digits := RadixText(absValue, numDigits, 3, false);
      WriteInt(numDigits, full, spec, digits);
    }

    method OnNum(absValue: nat, prefix: string, spec: Spec, sep: char)
      requires absValue < 0x1_0000_0000_0000_0000
      modifies this
      ensures out == old(out) + Layout(prefix, Grouped(absValue, [sep]), spec)
      ensures reserved - old(reserved) == |out| - |old(out)|
    {
      CountDigits.FastCountExact(absValue);
      var numDigits: int := CountDigits.FastCount(absValue);
      var size := numDigits + 1 * ((numDigits - 1) / 3);
      GroupedLength(absValue, [sep]);
      var digits := DecimalText(absValue, size, [sep]);
      WriteInt(size, prefix, spec, digits);
    }
  }

  /** Formats through a buffer of exactly the size counted in advance. */
  method DecimalText(value: nat, size: nat, sep: string) returns (text: string)
    requires size == |Grouped(value, sep)|
    ensures text == Grouped(value, sep)
  {
    var buffer := new char[size](_ => '0');
    var thousands := new ThousandsSep(sep);
    FormatDecimal(buffer, 0, value, size, thousands);
    text := buffer[..];
  }

  method RadixText(value: nat, size: nat, bits: nat, upper: bool) returns (text: string)
    requires RadixBits(bits) && size == |RadixDigits(value, bits, upper)|
    ensures text == RadixDigits(value, bits, upper)
  {
    var buffer := new char[size](_ => '0');
    FormatUint(buffer, 0, value, size, bits, upper);
    text := buffer[..];
  }

  lemma NoSeparator(n: nat)
    ensures Grouped(n, "") == Dec(n)
  {
    LeftwardsPlain(n, 0);
    LeftwardsIsGrouped(n, "");
  }
}
