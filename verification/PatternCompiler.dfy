/** Patterns such as "[%H:%M] %-8l %v": their compilation and their meaning. */
module PatternCompiler {
  import opened Decimal
  import opened IntParsing
  import opened PatternPad

  /** What a compiled pattern is a list of. Field stands for the formatters whose text
      depends on the clock, the thread, the process or the source location. */
  datatype FlagFormatter =
    | Full
    | Name(padding: Padding)
    | Level(padding: Padding)
    | Payload(padding: Padding)
    | Percent
    | Aggregate(text: string)
    | Field(flag: char, padding: Padding)

  const SIZE_MODULUS: nat := 0x1_0000_0000_0000_0000

  /** The flags of the Field kind; %i only in a build with the message counter. */
  predicate IsField(flag: char, counter: bool) {
    || flag in {'L', 't', 'a', 'A', 'b', 'h', 'B', 'c', 'C', 'Y', 'D', 'x', 'm', 'd', 'H', 'I', 'M', 'S', 'e', 'f', 'F'}
    || flag in {'E', 'p', 'r', 'R', 'T', 'X', 'z', 'P', '^', '$', '@', 's', '#'}
    || (counter && flag == 'i')
  }

  function HandleFlag(flag: char, padding: Padding, counter: bool): FlagFormatter {
    if flag == '+' then Full
    else if flag == 'n' then Name(padding)
    else if flag == 'l' then Level(padding)
    else if flag == 'v' then Payload(padding)
    else if flag == '%' then Percent
    else if IsField(flag, counter) then Field(flag, padding)
    else Aggregate(['%', flag])
  }

  function Min(x: nat, y: nat): nat {
    if x < y then x else y
  }

  /** The padding specified at the start of s, and how many characters specify it. The
      width is read into 64 bits, then cut to the most allowed. */
  function PadSpec(s: string): (r: (Padding, nat))
    ensures r.0.Bounded() && r.1 <= |s|
  {
    if s == "" then (NO_PADDING, 0)
    else
      var side := if s[0] == '-' then Right else if s[0] == '=' then Center else Left;
      var k := if side == Left then 0 else 1;
      var run := DigitRun(s[k..]);
      (Padding(Min(Val(s[k..][..run]) % SIZE_MODULUS, MAX_WIDTH), side), k + run)
  }

  /** The width asked for at the start of s, after an alignment sign if there is one. */
  function Written(s: string): nat {
    if s == "" then 0
    else
      var digits := if s[0] == '-' || s[0] == '=' then s[1..] else s;
      Val(digits[..DigitRun(digits)])
  }

  /** The width is the one written, cut to the most allowed, exactly when what is
      written fits 64 bits or wraps to something no smaller than that most. */
  lemma WidthAsWritten(s: string)
    ensures PadSpec(s).0.width == Min(Written(s), MAX_WIDTH)
       <==> Written(s) < SIZE_MODULUS || Written(s) % SIZE_MODULUS >= MAX_WIDTH
  {
    assert s[0..] == s;
    hide Val;
    hide DigitRun;
    CutAgrees(Written(s));
    if s != "" {
      assert PadSpec(s).0.width == Min(Written(s) % SIZE_MODULUS, MAX_WIDTH);
    }
  }

  lemma CutAgrees(written: nat)
    ensures Min(written % SIZE_MODULUS, MAX_WIDTH) == Min(written, MAX_WIDTH)
       <==> written < SIZE_MODULUS || written % SIZE_MODULUS >= MAX_WIDTH
  {
    if written < SIZE_MODULUS {
      assert written % SIZE_MODULUS == written;
    }
  }

  /** %18446744073709551617v asks for a huge width and gets a width of one. */
  lemma WidthWraps(s: string)
    requires s == Dec(SIZE_MODULUS + 1) + "v"
    ensures PadSpec(s).0 == Padding(1, Left)
  {
    hide Dec;
    ParseFormatted(SIZE_MODULUS + 1, "v");
    hide Val;
    hide DigitRun;
    assert IsDigit(s[0]);
    assert s[0..] == s;
  }

  // ----- Compilation ----------------------------------------------------------------

  /** The length of the run of plain characters at the start of s. */
  function PlainRun(s: string): (n: nat)
    ensures n <= |s| && (n < |s| ==> s[n] == '%')
    ensures forall i :: 0 <= i < n ==> s[i] != '%'
  {
    if s == "" || s[0] == '%' then 0 else 1 + PlainRun(s[1..])
  }

  /** Each directive gives its formatter, each maximal run of plain text one formatter;
      a directive cut short by the end of the pattern gives none. */
  function Compiled(s: string, counter: bool): (r: seq<FlagFormatter>)
    decreases |s|
  {
    if s == "" then []
    else if s[0] == '%' then
      var (padding, k) := PadSpec(s[1..]);
      if 1 + k == |s| then []
      else [HandleFlag(s[1 + k], padding, counter)] + Compiled(s[2 + k..], counter)
    else
      var n := PlainRun(s);
      [Aggregate(s[..n])] + Compiled(s[n..], counter)
  }

  /** Reads the padding at pattern[start], if any, and moves past it. */
  method HandlePadspec(pattern: string, start: nat) returns (padding: Padding, next: nat)
    requires start <= |pattern|
    ensures (padding, next - start) == PadSpec(pattern[start..])
    ensures start <= next <= |pattern|
  {
    hide Val;
    hide DigitRun;
    next := start;
    if next == |pattern| {
      return NO_PADDING, next;
    }
    ghost var rest := pattern[start..];
    assert rest[0..] == rest && rest[1..] == pattern[start + 1..];
    var side := Left;
    if pattern[next] == '-' {
      side := Right;
      next := next + 1;
    } else if pattern[next] == '=' {
      side := Center;
      next := next + 1;
    }
    NoDigits(pattern[next..]);
    if next == |pattern| || !IsDigit(pattern[next]) {
      return Padding(0, side), next;
    }
    var width;
    width, next := ReadWidth(pattern, next);
    padding := Padding(Min(width, MAX_WIDTH), side);
  }

  lemma NoDigits(s: string)
    ensures s == "" || !IsDigit(s[0]) ==> DigitRun(s) == 0 && Val(s[..DigitRun(s)]) == 0
  {
  }

  /** The digits at pattern[start], read into a size_t. */
  method ReadWidth(pattern: string, start: nat) returns (width: nat, next: nat)
    requires start < |pattern| && IsDigit(pattern[start])
    ensures next == start + DigitRun(pattern[start..]) <= |pattern|
    ensures width == Val(pattern[start..][..next - start]) % SIZE_MODULUS
  {
    ghost var digits, run := pattern[start..], DigitRun(pattern[start..]);
    RunEnds(digits, 0, run);
    ReadOne(digits, 0, run);
    width := DigitValue(pattern[start]);
    assert width == Val(digits[..1]);
    assert width == width % SIZE_MODULUS;
    hide *;
    next := start + 1;
    RunEnds(digits, 1, run);
    while next < |pattern| && IsDigit(pattern[next])
      invariant start < next <= start + run <= |pattern|
      invariant width == Val(digits[..next - start]) % SIZE_MODULUS
      invariant next - start < run <==> next < |pattern| && IsDigit(pattern[next])
    {
      ReadOne(digits, next - start, run);
      NextDigit(Val(digits[..next - start]), DigitValue(pattern[next]));
      width := (width * 10 + DigitValue(pattern[next])) % SIZE_MODULUS;
      next := next + 1;
      RunEnds(digits, next - start, run);
    }
  }

  /** Wrapping at each digit is wrapping once at the end. */
  lemma NextDigit(value: nat, digit: nat)
    ensures ((value % SIZE_MODULUS) * 10 + digit) % SIZE_MODULUS == (10 * value + digit) % SIZE_MODULUS
  {
    var q := value / SIZE_MODULUS;
    assert 10 * value + digit == (value % SIZE_MODULUS) * 10 + digit + SIZE_MODULUS * (10 * q);
    ModAdd((value % SIZE_MODULUS) * 10 + digit, 10 * q);
  }

  lemma ModAdd(x: nat, k: nat)
    ensures (x + SIZE_MODULUS * k) % SIZE_MODULUS == x % SIZE_MODULUS
  {
  }

  lemma {:induction false} PlainRunIs(s: string, n: nat)
    requires n <= |s| && (forall i :: 0 <= i < n ==> s[i] != '%') && (n < |s| ==> s[n] == '%')
    ensures PlainRun(s) == n
  {
    if n > 0 {
      PlainRunIs(s[1..], n - 1);
    }
  }

  /** Plain text up to a directive, or to the end, is one formatter. */
  lemma CompiledPlain(s: string, n: nat, counter: bool)
    requires 0 < n <= |s| && (forall i :: 0 <= i < n ==> s[i] != '%') && (n < |s| ==> s[n] == '%')
    ensures Compiled(s, counter) == [Aggregate(s[..n])] + Compiled(s[n..], counter)
  {
    PlainRunIs(s, n);
  }

  // ----- What a compiled pattern means ------------------------------------------------

  type Rendering = FlagFormatter -> string

  function RenderAll(fs: seq<FlagFormatter>, render: Rendering): string {
    if fs == [] then "" else render(fs[0]) + RenderAll(fs[1..], render)
  }

  /** A pattern read one character at a time, with no grouping of plain text. */
  function Meaning(s: string, counter: bool, render: Rendering): string
    decreases |s|
  {
    if s == "" then ""
    else if s[0] != '%' then [s[0]] + Meaning(s[1..], counter, render)
    else
      var (padding, k) := PadSpec(s[1..]);
      if 1 + k == |s| then ""
      else render(HandleFlag(s[1 + k], padding, counter)) + Meaning(s[2 + k..], counter, render)
  }

  /** A directive with no padding, and a plain character, at the start of a pattern. */
  lemma MeaningFlag(flag: char, rest: string, counter: bool, render: Rendering)
    requires flag != '-' && flag != '=' && !IsDigit(flag)
    ensures Meaning(['%', flag] + rest, counter, render)
         == render(HandleFlag(flag, NO_PADDING, counter)) + Meaning(rest, counter, render)
  {
    var s := ['%', flag] + rest;
    assert s[1..] == [flag] + rest && s[2..] == rest;
    NoPadding(s[1..]);
    hide HandleFlag;
    hide PadSpec;
  }

  lemma NoPadding(s: string)
    requires s != "" && s[0] != '-' && s[0] != '=' && !IsDigit(s[0])
    ensures PadSpec(s) == (NO_PADDING, 0)
  {
    assert s[0..] == s;
    RunEnds(s, 0, DigitRun(s));
    assert s[..0] == "";
  }

  lemma MeaningChar(c: char, rest: string, counter: bool, render: Rendering)
    requires c != '%'
    ensures Meaning([c] + rest, counter, render) == [c] + Meaning(rest, counter, render)
  {
    assert ([c] + rest)[1..] == rest;
  }

  predicate IsFlag(flag: char, counter: bool) {
    flag in {'+', 'n', 'l', 'v', '%'} || IsField(flag, counter)
  }

  /** An unknown flag appears as it is, with its percent sign; its padding does not. */
  lemma UnknownFlagAsIs(s: string, counter: bool, render: Rendering)
    requires Literal(render) && s != "" && s[0] == '%'
    requires var k := PadSpec(s[1..]).1; 1 + k < |s| && !IsFlag(s[1 + k], counter)
    ensures var k := PadSpec(s[1..]).1;
            Meaning(s, counter, render) == ['%', s[1 + k]] + Meaning(s[2 + k..], counter, render)
  {
    var k := PadSpec(s[1..]).1;
    assert HandleFlag(s[1 + k], PadSpec(s[1..]).0, counter) == Aggregate(['%', s[1 + k]]);
  }

  /** Plain text is rendered as it stands, and so is a percent sign. */
  ghost predicate Literal(render: Rendering) {
    render(Percent) == "%" && forall t :: render(Aggregate(t)) == t
  }

  /** Grouping plain text changes nothing. */
  lemma {:induction false} CompiledMeaning(s: string, counter: bool, render: Rendering)
    requires Literal(render)
    ensures RenderAll(Compiled(s, counter), render) == Meaning(s, counter, render)
    decreases |s|
  {
    if s == "" {
    } else if s[0] == '%' {
      var (padding, k) := PadSpec(s[1..]);
      if 1 + k < |s| {
        CompiledMeaning(s[2 + k..], counter, render);
        RenderCons(HandleFlag(s[1 + k], padding, counter), Compiled(s[2 + k..], counter), render);
      }
    } else {
      var n := PlainRun(s);
      CompiledMeaning(s[n..], counter, render);
      RenderCons(Aggregate(s[..n]), Compiled(s[n..], counter), render);
      PlainMeaning(s, n, counter, render);
    }
  }

  lemma RenderCons(f: FlagFormatter, fs: seq<FlagFormatter>, render: Rendering)
    ensures RenderAll([f] + fs, render) == render(f) + RenderAll(fs, render)
  {
    assert ([f] + fs)[1..] == fs;
  }

  lemma {:induction false} RenderSnoc(fs: seq<FlagFormatter>, f: FlagFormatter, render: Rendering)
    ensures RenderAll(fs + [f], render) == RenderAll(fs, render) + render(f)
  {
    if fs == [] {
      assert fs + [f] == [f] && [f][1..] == [];
      assert render(f) + "" == "" + render(f);
    } else {
      RenderSnoc(fs[1..], f, render);
      assert (fs + [f])[1..] == fs[1..] + [f];
    }
  }

  lemma {:induction false} PlainMeaning(s: string, n: nat, counter: bool, render: Rendering)
    requires n <= |s| && forall i :: 0 <= i < n ==> s[i] != '%'
    ensures Meaning(s, counter, render) == s[..n] + Meaning(s[n..], counter, render)
  {
    hide Meaning;
    if n == 0 {
      assert s[0..] == s && s[..0] + Meaning(s, counter, render) == Meaning(s, counter, render);
    } else {
      var rest := s[1..];
      PlainMeaning(rest, n - 1, counter, render);
      assert s == [s[0]] + rest;
      MeaningChar(s[0], rest, counter, render);
      assert rest[n - 1..] == s[n..];
      assert s[..n] == [s[0]] + rest[..n - 1];
    }
  }

  function Doubled(text: string): string {
    if text == "" then ""
    else (if text[0] == '%' then "%%" else [text[0]]) + Doubled(text[1..])
  }

  /** Any text, its percent signs doubled, is a pattern for that text. */
  lemma {:induction false} DoubledMeansItself(text: string, counter: bool, render: Rendering)
    requires Literal(render)
    ensures Meaning(Doubled(text), counter, render) == text
  {
    if text != "" {
      var s, rest := Doubled(text), Doubled(text[1..]);
      DoubledMeansItself(text[1..], counter, render);
      if text[0] == '%' {
        assert s == "%%" + rest;
        var tail := s[1..];
        assert tail == ['%'] + rest && s[2..] == rest;
        RunEnds(tail[0..], 0, DigitRun(tail[0..]));
        assert tail[0..] == tail;
        assert PadSpec(tail).1 == 0;
        assert text == "%" + text[1..];
      } else {
        assert s[1..] == rest;
        assert text == [text[0]] + text[1..];
      }
    }
  }

  /** Compiling text with its percent signs doubled gives formatters for that text. */
  lemma DoubledRoundTrip(text: string, counter: bool, render: Rendering)
    requires Literal(render)
    ensures RenderAll(Compiled(Doubled(text), counter), render) == text
  {
    CompiledMeaning(Doubled(text), counter, render);
    DoubledMeansItself(text, counter, render);
  }

  function PaddingOf(f: FlagFormatter): Padding {
    match f
    case Name(p) => p
    case Level(p) => p
    case Payload(p) => p
    case Field(_, p) => p
    case _ => NO_PADDING
  }

  predicate AllBounded(fs: seq<FlagFormatter>) {
    forall i :: 0 <= i < |fs| ==> PaddingOf(fs[i]).Bounded()
  }

  /** No pattern asks for more spaces than there are. */
  lemma {:induction false} WidthsBounded(s: string, counter: bool)
    ensures AllBounded(Compiled(s, counter))
    decreases |s|
  {
    if s == "" {
    } else if s[0] == '%' {
      var (padding, k) := PadSpec(s[1..]);
      if 1 + k < |s| {
        WidthsBounded(s[2 + k..], counter);
      }
    } else {
      WidthsBounded(s[PlainRun(s)..], counter);
    }
  }
}
