/** The stand-alone integer formatter and the reader of unsigned integers. */
module IntParsing {
  import opened Machine
  import opened Powers
  import opened Decimal
  import IntDigits
  import IntWriter

  const BUFFER_SIZE: nat := 22

  function SignedText(value: int): string {
    if value < 0 then ['-'] + Dec(-value) else Dec(value)
  }

  function ReadSigned(s: string): int
    requires s != [] && (s[0] == '-' ==> AllDigits(s[1..])) && (s[0] != '-' ==> AllDigits(s))
  {
    if s[0] == '-' then 0 - Val(s[1..]) else Val(s)
  }

  /** Formatting and reading back gives the value. */
  lemma SignedRoundTrip(value: int)
    ensures var s := SignedText(value);
            && (s[0] == '-' ==> AllDigits(s[1..])) && (s[0] != '-' ==> AllDigits(s))
            && ReadSigned(s) == value
  {
    ValDec(if value < 0 then -value else value);
    var s := SignedText(value);
    if value < 0 {
      assert s[1..] == Dec(-value);
    } else {
      assert IsDigit(s[0]);
    }
  }

  /** Formats into the end of a fixed buffer, from the right. */
  class FormatInt {
    const buffer: array<char>
    var str: nat

    ghost predicate Valid()
      reads this
    {
      buffer.Length == BUFFER_SIZE && str <= BUFFER_SIZE - 1
    }

    function Str(): string
      reads this, buffer
      requires Valid()
    {
      buffer[str..BUFFER_SIZE - 1]
    }

    constructor Unsigned(value: uint64)
      ensures Valid() && fresh(buffer) && Str() == Dec(value as nat)
    {
      buffer := new char[BUFFER_SIZE];
      str := 0;
      new;
      FormatDecimal(value as nat);
    }

    /** Every signed 64-bit value fits, the least one included, though its
        magnitude is not a signed 64-bit value. */
    constructor Signed(value: int)
      requires -0x8000_0000_0000_0000 <= value < 0x8000_0000_0000_0000
      ensures Valid() && fresh(buffer) && Str() == SignedText(value)
    {
      buffer := new char[BUFFER_SIZE];
      str := 0;
      new;
      IntWriter.AbsoluteValue(value, 0x1_0000_0000_0000_0000);
      var absValue := value % 0x1_0000_0000_0000_0000;
      if value < 0 {
        absValue := (0 - absValue) % 0x1_0000_0000_0000_0000;
      }
      FormatDecimal(absValue);
      if value < 0 {
        ghost var digits := Str();
        assert digits == Dec(-value);
        hide Dec;
        str := str - 1;
        buffer[str] := '-';
        assert Str() == ['-'] + digits;
      }
    }

    method FormatDecimal(value: nat)
      requires buffer.Length == BUFFER_SIZE && value < 0x1_0000_0000_0000_0000
      modifies this, buffer
      ensures Valid() && Str() == Dec(value) && str >= 1
    {
      FitsBuffer(value);
      hide *;
      var v, ptr := value, BUFFER_SIZE - 1;
      ghost var tail := buffer[ptr..];
      ghost var goal := Dec(value) + tail;
      while v >= 100
        invariant 1 + |Dec(v)| <= ptr <= BUFFER_SIZE - 1
        invariant Dec(v) + buffer[ptr..] == goal
      {
        var index := v % 100;
        IntDigits.Hundreds(v);
        ptr := Push(ptr, index % 10, v);
        ptr := Push(ptr, index / 10, v / 10);
        v := v / 100;
      }
      if v >= 10 {
        ptr := Push(ptr, v % 10, v);
        v := v / 10;
      }
      OneDigit(v);
      IntDigits.SetDigit(buffer, ptr, 0, DigitChar(v));
      ptr := ptr - 1;
      str := ptr;
      Finish(buffer[..], ptr, Dec(value), tail);
    }

    /** Puts the last digit of v before what has been written. */
    method Push(ptr: nat, digit: nat, ghost v: nat) returns (next: nat)
      requires v >= 10 && digit == v % 10 && 0 < ptr <= buffer.Length
      modifies buffer
      ensures next == ptr - 1 && |Dec(v)| == |Dec(v / 10)| + 1
      ensures Dec(v) + old(buffer[ptr..]) == Dec(v / 10) + buffer[next..]
    {
      IntDigits.DecStep(v);
      IntDigits.Joined(Dec(v / 10), [], DigitChar(digit), buffer[ptr..]);
      hide Dec;
      IntDigits.SetDigit(buffer, ptr, 0, DigitChar(digit));
      next := ptr - 1;
    }
  }

  lemma Finish(s: string, ptr: nat, d: string, tail: string)
    requires |s| == BUFFER_SIZE && |tail| == 1 && ptr <= |s| && s[ptr..] == d + tail
    ensures ptr <= BUFFER_SIZE - 1 && s[ptr..BUFFER_SIZE - 1] == d
  {
    assert s[ptr..BUFFER_SIZE - 1] == s[ptr..][..|d|];
  }

  /** At most 20 digits and a sign fit before the terminating null. */
  lemma FitsBuffer(value: nat)
    requires value < 0x1_0000_0000_0000_0000
    ensures |Dec(value)| <= 20
  {
    DecLength(value);
    if |Dec(value)| > 1 {
      TwentyDigits(20);
      TenLess(|Dec(value)| - 1, 20);
    }
  }

  lemma TwentyDigits(k: nat)
    requires 19 < k < 21
    ensures Ten(k) == 100000000000000000000
  {
    TenHalf(k / 2);
    TenAdd(k / 2, k / 2);
  }

  lemma TenHalf(k: nat)
    requires 9 < k < 11
    ensures Ten(k) == 10000000000
  {
    var h := k / 2;
    assert Ten(h) == 100000 by {
      assert Ten(h - 2) == 1000 by {
        assert Ten(h - 4) == 10;
      }
    }
    TenAdd(h, h);
  }

  lemma OneDigit(v: nat)
    requires v < 10
    ensures Dec(v) == [DigitChar(v)]
  {
  }

  // ----- Reading ------------------------------------------------------------------

  const MAX_INT: uint32 := 0x7fff_ffff

  /** The length of the run of digits at the start of s. */
  function DigitRun(s: string): (n: nat)
    ensures n <= |s| && AllDigits(s[..n]) && (n < |s| ==> !IsDigit(s[n]))
  {
    if s == [] || !IsDigit(s[0]) then 0 else 1 + DigitRun(s[1..])
  }

  /** Reads an unsigned integer at s[begin]. The value comes back, and the whole
      run of digits is consumed, exactly when it does not exceed the largest int;
      otherwise the error is reported. The 32-bit accumulator never wraps. */
  method ParseNonnegativeInt(s: string, begin: nat) returns (value: uint32, next: nat, tooBig: bool)
    requires begin < |s| && IsDigit(s[begin])
    ensures var run := DigitRun(s[begin..]);
            && tooBig == (Val(s[begin..][..run]) > MAX_INT as nat)
            && (!tooBig ==> value as nat == Val(s[begin..][..run]) && next == begin + run)
  {
    var big := MAX_INT / 10;
    ghost var run, text := DigitRun(s[begin..]), s[begin..];
    value := 0;
    next := begin;
    var more := true;
    while more
      invariant begin <= next <= begin + run && (more ==> next < begin + run)
      invariant value as nat == Val(text[..next - begin])
      invariant !more ==> next == begin + run
      decreases begin + run - next, more
    {
      if value > big {
        TooBigAlready(text, next - begin, run);
        value := MAX_INT + 1;
        break;
      }
      ReadOne(text, next - begin, run);
      value := value * 10 + DigitValue(s[next]) as uint32;
      next := next + 1;
      more := next != |s| && IsDigit(s[next]);
      RunEnds(text, next - begin, run);
    }
    tooBig := value > MAX_INT;
  }

  lemma ReadOne(text: string, k: nat, run: nat)
    requires run == DigitRun(text) && k < run
    ensures IsDigit(text[k]) && Val(text[..k + 1]) == 10 * Val(text[..k]) + DigitValue(text[k])
  {
    assert text[..run][k] == text[k];
    assert text[..k + 1] == text[..k] + [text[k]];
    ValSnoc(text[..k], text[k]);
  }

  lemma RunEnds(text: string, k: nat, run: nat)
    requires run == DigitRun(text) && k <= run
    ensures k < run <==> k < |text| && IsDigit(text[k])
  {
    if k < run {
      assert text[..run][k] == text[k];
    }
  }

  /** Once the accumulator exceeds a tenth of the limit, another digit exceeds the limit. */
  lemma {:induction false} TooBigAlready(text: string, k: nat, run: nat)
    requires run == DigitRun(text) && k < run
    requires Val(text[..k]) > (MAX_INT / 10) as nat
    ensures Val(text[..run]) > MAX_INT as nat
    decreases run - k
  {
    ReadOne(text, k, run);
    if k + 1 < run {
      TooBigAlready(text, k + 1, run);
    }
  }

  /** Formatting an unsigned number and reading it back, whatever follows it. */
  lemma ParseFormatted(n: nat, rest: string)
    requires rest == [] || !IsDigit(rest[0])
    ensures DigitRun(Dec(n) + rest) == |Dec(n)| && Val((Dec(n) + rest)[..|Dec(n)|]) == n
  {
    ValDec(n);
    assert (Dec(n) + rest)[..|Dec(n)|] == Dec(n);
    RunOf(Dec(n), rest);
  }

  lemma {:induction false} RunOf(digits: string, rest: string)
    requires AllDigits(digits) && (rest == [] || !IsDigit(rest[0]))
    ensures DigitRun(digits + rest) == |digits|
  {
    if digits == [] {
      assert digits + rest == rest;
    } else {
      assert (digits + rest)[1..] == digits[1..] + rest;
      RunOf(digits[1..], rest);
    }
  }
}
