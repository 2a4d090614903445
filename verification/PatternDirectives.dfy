/** What each directive of a pattern prints: its padding, and its text read back. */
module PatternDirectives {
  import opened Powers
  import opened Decimal
  import opened Calendar
  import opened PatternPad
  import opened PatternCompiler
  import opened PatternFields
  import IntParsing
  import IntWriter

  // ----- Padding ----------------------------------------------------------------------------

  predicate IsSign(sign: string) {
    sign == "" || sign == "-" || sign == "="
  }

  /** A text with `pad` spaces: before it without a sign, after it with '-', on both sides
      with '=', an odd one after it. */
  function Aligned(sign: string, pad: nat, text: string): string
    requires IsSign(sign)
  {
    if sign == "" then Spaces(pad) + text
    else if sign == "-" then text + Spaces(pad)
    else Spaces(pad / 2) + text + Spaces(pad - pad / 2)
  }

  /** The width that digits ask for: read into 64 bits, then cut to 128. */
  function Width(digits: string): nat
    requires AllDigits(digits)
  {
    var w := Val(digits) % 0x1_0000_0000_0000_0000;
    if w > 128 then 128 else w
  }

  function SideOf(sign: string): Side
    requires IsSign(sign)
  {
    if sign == "" then Left else if sign == "-" then Right else Center
  }

  lemma PadSpecSpelled(sign: string, digits: string, rest: string)
    requires IsSign(sign) && AllDigits(digits) && (rest == "" || !IsDigit(rest[0]))
    requires sign == "" && digits == "" && rest != "" ==> rest[0] != '-' && rest[0] != '='
    ensures PadSpec(sign + digits + rest) == (Padding(Width(digits), SideOf(sign)), |sign| + |digits|)
  {
    hide Val, IntParsing.DigitRun, AllDigits;
    var s := sign + digits + rest;
    DigitsOf(digits, rest);
    if s == "" {
      assert sign == "" && digits == "";
    } else {
      FirstOf(sign, digits, rest);
      var padding := PadSpec(s).0;
      assert padding.side == SideOf(sign) && PadSpec(s).1 == |sign| + |digits|;
    }
  }

  lemma FirstOf(sign: string, digits: string, rest: string)
    requires IsSign(sign) && AllDigits(digits) && sign + digits + rest != ""
    requires sign == "" && digits == "" && rest != "" ==> rest[0] != '-' && rest[0] != '='
    ensures var s := sign + digits + rest;
            && (s[0] == '-' <==> sign == "-") && (s[0] == '=' <==> sign == "=")
            && s[|sign|..] == digits + rest
  {
    var s := sign + digits + rest;
    if sign == "" {
      assert s == digits + rest;
      if digits != "" {
        assert s[0] == digits[0];
      } else {
        assert s == rest;
      }
    }
  }

  lemma DigitsOf(digits: string, rest: string)
    requires AllDigits(digits) && (rest == "" || !IsDigit(rest[0]))
    ensures IntParsing.DigitRun(digits + rest) == |digits| && (digits + rest)[..|digits|] == digits
    ensures digits == "" ==> Val(digits) == 0
  {
    IntParsing.RunOf(digits, rest);
  }

  /** A directive is read as the formatter for its flag, side and width. */
  lemma DirectiveRead(sign: string, digits: string, flag: char, rest: string, counter: bool, render: Rendering)
    requires IsSign(sign) && AllDigits(digits) && !IsDigit(flag)
    requires sign == "" && digits == "" ==> flag != '-' && flag != '='
    ensures Meaning("%" + sign + digits + [flag] + rest, counter, render)
         == render(HandleFlag(flag, Padding(Width(digits), SideOf(sign)), counter)) + Meaning(rest, counter, render)
  {
    var s := "%" + sign + digits + [flag] + rest;
    assert s[1..] == sign + digits + ([flag] + rest);
    var k := |sign| + |digits|;
    assert s[1 + k] == flag && s[2 + k..] == rest;
    PadSpecSpelled(sign, digits, [flag] + rest);
    hide PadSpec, HandleFlag, Width, Val;
  }

  /** What flag shows of a message, and the size it is taken to have by the padding. */
  predicate Shows(flag: char, text: string, size: nat, msg: Message, tm: Tm) {
    || (flag == 'n' && text == msg.name && size == |text|)
    || (flag == 'l' && text == msg.level && size == |text|)
    || (flag == 'v' && text == msg.payload && size == |text|)
    || (IsTimeField(flag) && text == TimeText(flag, msg, tm) && size == DeclaredSize(flag, tm))
  }

  lemma ShownPadded(flag: char, padding: Padding, text: string, size: nat, counter: bool, msg: Message, tm: Tm,
                    fields: Fields)
    requires Shows(flag, text, size, msg, tm)
    ensures Rendered(msg, tm, fields)(HandleFlag(flag, padding, counter)) == PaddedAs(text, size, padding)
    ensures flag != '-' && flag != '=' && !IsDigit(flag)
  {
    hide TimeText, DeclaredSize, PaddedAs;
    var f := HandleFlag(flag, padding, counter);
    if IsTimeField(flag) {
      assert f == Field(flag, padding);
    } else {
      assert f == if flag == 'n' then Name(padding) else if flag == 'l' then Level(padding) else Payload(padding);
      assert PadText(text, padding) == PaddedAs(text, size, padding);
    }
  }

  lemma AlignedAsPadded(sign: string, digits: string, text: string, size: nat)
    requires IsSign(sign) && AllDigits(digits)
    ensures var w := Width(digits);
            PaddedAs(text, size, Padding(w, SideOf(sign))) == Aligned(sign, if w > size then w - size else 0, text)
  {
    var w := Width(digits);
    hide Val;
    var pad := if w > size then w - size else 0;
    assert Spaces(0) == "";
    assert Spaces(pad) + text + "" == Spaces(pad) + text;
    assert "" + text + Spaces(pad) == text + Spaces(pad);
  }

  /** A directive with any sign and width shows its text with the spaces missing to the
      width, on the side the sign asks for; and reading goes on after it. */
  lemma PaddedDirective(sign: string, digits: string, flag: char, text: string, size: nat, rest: string,
                        counter: bool, msg: Message, tm: Tm, fields: Fields)
    requires IsSign(sign) && AllDigits(digits) && Shows(flag, text, size, msg, tm)
    ensures var render, w := Rendered(msg, tm, fields), Width(digits);
            Meaning("%" + sign + digits + [flag] + rest, counter, render)
            == Aligned(sign, if w > size then w - size else 0, text) + Meaning(rest, counter, render)
  {
    ShownPadded(flag, Padding(Width(digits), SideOf(sign)), text, size, counter, msg, tm, fields);
    hide HandleFlag, Rendered, Aligned, PaddedAs, Shows, Width, Val;
    DirectiveRead(sign, digits, flag, rest, counter, Rendered(msg, tm, fields));
    AlignedAsPadded(sign, digits, text, size);
  }

  /** A directive that the end of the pattern cuts short shows nothing. */
  lemma CutShort(sign: string, digits: string, counter: bool, render: Rendering)
    requires IsSign(sign) && AllDigits(digits)
    ensures Meaning("%" + sign + digits, counter, render) == ""
  {
    var s := "%" + sign + digits;
    assert s[1..] == sign + digits + "";
    PadSpecSpelled(sign, digits, "");
    hide PadSpec, Width, Val;
  }

  /** The flags whose text depends on more than the message and the time. */
  predicate IsOtherField(flag: char, counter: bool) {
    flag in {'L', 't', 'z', 'P', '^', '$', '@', 's', '#'} || (counter && flag == 'i')
  }

  /** Such a directive shows what its field gives for the padding asked for; %+ shows the
      default line whatever padding it is given. */
  lemma OtherDirective(sign: string, digits: string, flag: char, rest: string,
                       counter: bool, msg: Message, tm: Tm, fields: Fields)
    requires IsSign(sign) && AllDigits(digits) && (flag == '+' || IsOtherField(flag, counter))
    ensures var render := Rendered(msg, tm, fields);
            Meaning("%" + sign + digits + [flag] + rest, counter, render)
            == (if flag == '+' then render(Full) else fields(flag, Padding(Width(digits), SideOf(sign)), msg, tm))
               + Meaning(rest, counter, render)
  {
    OtherShown(flag, Padding(Width(digits), SideOf(sign)), counter, msg, tm, fields);
    hide HandleFlag, Rendered, Width, Val;
    DirectiveRead(sign, digits, flag, rest, counter, Rendered(msg, tm, fields));
  }

  lemma OtherShown(flag: char, padding: Padding, counter: bool, msg: Message, tm: Tm, fields: Fields)
    requires flag == '+' || IsOtherField(flag, counter)
    ensures var render := Rendered(msg, tm, fields);
            render(HandleFlag(flag, padding, counter))
            == if flag == '+' then render(Full) else fields(flag, padding, msg, tm)
    ensures flag != '-' && flag != '=' && !IsDigit(flag)
  {
    hide TimeText, DeclaredSize, PaddedAs;
    var f := HandleFlag(flag, padding, counter);
    assert f == if flag == '+' then Full else Field(flag, padding);
    assert !IsTimeField(flag);
  }

  // ----- Every pattern ------------------------------------------------------------------------

  /** A plain character, or a directive with its sign, width and flag. */
  datatype Part = Plain(c: char) | Directive(sign: string, digits: string, flag: char)

  predicate IsPart(p: Part) {
    match p
    case Plain(c) => c != '%'
    case Directive(sign, digits, flag) =>
      && IsSign(sign) && AllDigits(digits) && !IsDigit(flag)
      && (sign == "" && digits == "" ==> flag != '-' && flag != '=')
  }

  predicate AreParts(ps: seq<Part>) {
    forall i :: 0 <= i < |ps| ==> IsPart(ps[i])
  }

  function Spelled(ps: seq<Part>): string {
    if ps == [] then "" else SpelledPart(ps[0]) + Spelled(ps[1..])
  }

  function SpelledPart(p: Part): string {
    match p
    case Plain(c) => [c]
    case Directive(sign, digits, flag) => "%" + sign + digits + [flag]
  }

  /** What a part shows of a message: text aligned to the width, the default line, a percent
      sign, another field, or, for a flag there is not, the flag itself with its percent sign. */
  function Shown(p: Part, counter: bool, msg: Message, tm: Tm, fields: Fields): string
    requires IsPart(p)
  {
    match p
    case Plain(c) => [c]
    case Directive(sign, digits, flag) =>
      var w := Width(digits);
      if flag == 'n' then Fitted(sign, w, msg.name, |msg.name|)
      else if flag == 'l' then Fitted(sign, w, msg.level, |msg.level|)
      else if flag == 'v' then Fitted(sign, w, msg.payload, |msg.payload|)
      else if IsTimeField(flag) then Fitted(sign, w, TimeText(flag, msg, tm), DeclaredSize(flag, tm))
      else if flag == '+' then Datetime(tm) + FullRest(msg)
      else if flag == '%' then "%"
      else if IsOtherField(flag, counter) then fields(flag, Padding(w, SideOf(sign)), msg, tm)
      else ['%', flag]
  }

  function Fitted(sign: string, w: nat, text: string, size: nat): string
    requires IsSign(sign)
  {
    Aligned(sign, if w > size then w - size else 0, text)
  }

  function ShownAll(ps: seq<Part>, counter: bool, msg: Message, tm: Tm, fields: Fields): string
    requires AreParts(ps)
  {
    if ps == [] then "" else Shown(ps[0], counter, msg, tm, fields) + ShownAll(ps[1..], counter, msg, tm, fields)
  }

  lemma PartRead(p: Part, rest: string, counter: bool, msg: Message, tm: Tm, fields: Fields)
    requires IsPart(p)
    ensures Meaning(SpelledPart(p) + rest, counter, Rendered(msg, tm, fields))
         == Shown(p, counter, msg, tm, fields) + Meaning(rest, counter, Rendered(msg, tm, fields))
  {
    var render := Rendered(msg, tm, fields);
    match p
    case Plain(c) => MeaningChar(c, rest, counter, render);
    case Directive(sign, digits, flag) =>
      DirectiveRead(sign, digits, flag, rest, counter, render);
      FlagShown(sign, digits, flag, counter, msg, tm, fields);
      hide Shown, HandleFlag, Rendered, Width, Meaning;
  }

  lemma FlagShown(sign: string, digits: string, flag: char, counter: bool, msg: Message, tm: Tm, fields: Fields)
    requires IsPart(Directive(sign, digits, flag))
    ensures Rendered(msg, tm, fields)(HandleFlag(flag, Padding(Width(digits), SideOf(sign)), counter))
         == Shown(Directive(sign, digits, flag), counter, msg, tm, fields)
  {
    hide TimeText, DeclaredSize, Width, Aligned, PaddedAs, Datetime, FullRest;
    var padding := Padding(Width(digits), SideOf(sign));
    if flag == 'n' {
      TextShown(sign, digits, flag, msg.name, |msg.name|, counter, msg, tm, fields);
    } else if flag == 'l' {
      TextShown(sign, digits, flag, msg.level, |msg.level|, counter, msg, tm, fields);
    } else if flag == 'v' {
      TextShown(sign, digits, flag, msg.payload, |msg.payload|, counter, msg, tm, fields);
    } else if IsTimeField(flag) {
      TextShown(sign, digits, flag, TimeText(flag, msg, tm), DeclaredSize(flag, tm), counter, msg, tm, fields);
    } else if flag == '+' || IsOtherField(flag, counter) {
      OtherShown(flag, padding, counter, msg, tm, fields);
    } else {
      NoField(flag, counter);
    }
  }

  lemma TextShown(sign: string, digits: string, flag: char, text: string, size: nat, counter: bool, msg: Message,
                  tm: Tm, fields: Fields)
    requires IsSign(sign) && AllDigits(digits) && Shows(flag, text, size, msg, tm)
    ensures Rendered(msg, tm, fields)(HandleFlag(flag, Padding(Width(digits), SideOf(sign)), counter))
         == Fitted(sign, Width(digits), text, size)
  {
    hide Rendered, HandleFlag, PaddedAs, Aligned, Width, Shows;
    ShownPadded(flag, Padding(Width(digits), SideOf(sign)), text, size, counter, msg, tm, fields);
    AlignedAsPadded(sign, digits, text, size);
  }

  lemma NoField(flag: char, counter: bool)
    requires !IsTimeField(flag) && !IsOtherField(flag, counter)
    ensures !IsField(flag, counter)
  {
  }

  /** Parts one after the other, and a directive that the end may cut short, show what the
      parts show. */
  lemma {:induction false} PartsRead(ps: seq<Part>, tail: string, counter: bool, msg: Message, tm: Tm, fields: Fields)
    requires AreParts(ps) && IsTail(tail)
    ensures Meaning(Spelled(ps) + tail, counter, Rendered(msg, tm, fields)) == ShownAll(ps, counter, msg, tm, fields)
  {
    hide Meaning, Rendered, Shown, SpelledPart, IsPart, IsTail;
    if ps == [] {
      assert Spelled(ps) + tail == tail;
      TailShowsNothing(tail, counter, Rendered(msg, tm, fields));
    } else {
      var rest := Spelled(ps[1..]) + tail;
      assert Spelled(ps) + tail == SpelledPart(ps[0]) + rest;
      PartRead(ps[0], rest, counter, msg, tm, fields);
      PartsRead(ps[1..], tail, counter, msg, tm, fields);
    }
  }

  /** Nothing, or a percent sign with a sign and digits, or without. */
  ghost predicate IsTail(tail: string) {
    tail == "" || exists sign, digits :: CutOff(tail, sign, digits)
  }

  predicate CutOff(tail: string, sign: string, digits: string) {
    IsSign(sign) && AllDigits(digits) && tail == "%" + sign + digits
  }

  lemma TailShowsNothing(tail: string, counter: bool, render: Rendering)
    requires IsTail(tail)
    ensures Meaning(tail, counter, render) == ""
  {
    if tail != "" {
      var sign, digits :| CutOff(tail, sign, digits);
      CutShort(sign, digits, counter, render);
    }
  }

  /** The sign, and then the digits, at the start of a text. */
  lemma SignOf(s: string) returns (sign: string, rest: string)
    ensures s == sign + rest && IsSign(sign)
    ensures sign == "" && rest != "" ==> rest[0] != '-' && rest[0] != '='
  {
    if s != "" && (s[0] == '-' || s[0] == '=') {
      sign, rest := [s[0]], s[1..];
    } else {
      sign, rest := "", s;
    }
  }

  lemma LeadingDigits(s: string) returns (digits: string, rest: string)
    ensures s == digits + rest && AllDigits(digits) && (rest == "" || !IsDigit(rest[0]))
  {
    var run := IntParsing.DigitRun(s);
    digits, rest := s[..run], s[run..];
  }

  /** The directive at the start of a pattern, unless the end cuts it short. */
  lemma FirstDirective(s: string) returns (sign: string, digits: string, rest: string)
    requires s != "" && s[0] == '%'
    ensures if rest == "" then CutOff(s, sign, digits)
            else IsPart(Directive(sign, digits, rest[0])) && s == SpelledPart(Directive(sign, digits, rest[0])) + rest[1..]
  {
    var t;
    sign, t := SignOf(s[1..]);
    digits, rest := LeadingDigits(t);
    Reassemble(s, sign, digits, rest);
    assert digits == "" ==> t == rest by {
      assert "" + rest == rest;
    }
  }

  lemma Reassemble(s: string, sign: string, digits: string, rest: string)
    requires s != "" && s[0] == '%' && s[1..] == sign + (digits + rest)
    ensures rest == "" ==> s == "%" + sign + digits
    ensures rest != "" ==> s == ("%" + sign + digits + [rest[0]]) + rest[1..]
  {
    assert s == "%" + s[1..];
    if rest != "" {
      assert rest == [rest[0]] + rest[1..];
    }
  }

  /** Every pattern is that. */
  lemma {:induction false} PartsOf(s: string) returns (ps: seq<Part>, tail: string)
    ensures s == Spelled(ps) + tail && AreParts(ps) && IsTail(tail)
    decreases |s|
  {
    if s == "" {
      ps, tail := [], "";
    } else if s[0] != '%' {
      assert s == SpelledPart(Plain(s[0])) + s[1..];
      ps, tail := PartsOf(s[1..]);
      ps, tail := OneMore(s, Plain(s[0]), s[1..], ps, tail);
    } else {
      hide IsPart, SpelledPart, CutOff;
      var sign, digits, rest := FirstDirective(s);
      if rest == "" {
        ps, tail := [], s;
        assert Spelled(ps) + tail == s;
      } else {
        ps, tail := PartsOf(rest[1..]);
        ps, tail := OneMore(s, Directive(sign, digits, rest[0]), rest[1..], ps, tail);
      }
    }
  }

  lemma OneMore(s: string, p: Part, rest: string, ps: seq<Part>, tail: string) returns (qs: seq<Part>, end: string)
    requires IsPart(p) && s == SpelledPart(p) + rest && rest == Spelled(ps) + tail && AreParts(ps) && IsTail(tail)
    ensures s == Spelled(qs) + end && AreParts(qs) && IsTail(end)
  {
    hide SpelledPart, IsPart, IsTail;
    qs, end := [p] + ps, tail;
    assert qs[1..] == ps;
    assert SpelledPart(p) + (Spelled(ps) + tail) == (SpelledPart(p) + Spelled(ps)) + tail;
  }

  /** What every pattern shows of every message: it has parts, and whatever parts it is
      spelled from, its formatters write what they show. */
  lemma EveryPattern(s: string, counter: bool, msg: Message, tm: Tm, fields: Fields)
    ensures exists ps, tail :: AreParts(ps) && IsTail(tail) && s == Spelled(ps) + tail
    ensures forall ps, tail :: AreParts(ps) && IsTail(tail) && s == Spelled(ps) + tail ==>
              RenderAll(Compiled(s, counter), Rendered(msg, tm, fields)) == ShownAll(ps, counter, msg, tm, fields)
  {
    hide *;
    var qs, end := PartsOf(s);
    RenderedIsLiteral(msg, tm, fields);
    CompiledMeaning(s, counter, Rendered(msg, tm, fields));
    forall ps, tail | AreParts(ps) && IsTail(tail) && s == Spelled(ps) + tail
      ensures RenderAll(Compiled(s, counter), Rendered(msg, tm, fields)) == ShownAll(ps, counter, msg, tm, fields)
    {
      PartsRead(ps, tail, counter, msg, tm, fields);
    }
  }

  /** A width written in decimal is that width, up to 128. */
  lemma WidthOfNumber(n: nat)
    requires n < 0x1_0000_0000_0000_0000
    ensures Width(Dec(n)) == if n > 128 then 128 else n
  {
    hide Val, Dec;
    ValDec(n);
  }

  // ----- Texts read back ----------------------------------------------------------------------

  /** Digits, with a minus sign or not, that denote n. */
  predicate ReadsAs(s: string, n: int) {
    && s != "" && (if s[0] == '-' then AllDigits(s[1..]) else AllDigits(s))
    && IntParsing.ReadSigned(s) == n
  }

  lemma DigitsReadAs(s: string, n: nat)
    requires s != "" && AllDigits(s) && Val(s) == n
    ensures ReadsAs(s, n)
  {
    assert IsDigit(s[0]);
  }

  lemma SignedReadsAs(n: int)
    ensures ReadsAs(IntParsing.SignedText(n), n)
  {
    IntParsing.SignedRoundTrip(n);
    hide Val, Dec, IntParsing.ReadSigned;
    assert IntParsing.SignedText(n) != "";
  }

  lemma Pad2ReadsAs(n: int)
    ensures ReadsAs(Pad2(n), n)
  {
    if 0 <= n <= 99 {
      TwoDigitsOf(n);
      DigitsReadAs(Pad2(n), n);
    } else {
      SignedReadsAs(n);
    }
  }

  lemma TwoDigitsOf(n: nat)
    requires n <= 99
    ensures AllDigits(Padded(n, 2)) && Val(Padded(n, 2)) == n
  {
    var tens, ones := DigitChar(n / 10), DigitChar(n % 10);
    assert Padded(n / 10, 1) == [] + [tens];
    assert Padded(n, 2) == [tens] + [ones];
    ValSnoc([], tens);
    ValSnoc([tens], ones);
    assert [] + [tens] == [tens];
  }

  lemma PadUintReadsAs(n: nat, k: nat)
    ensures ReadsAs(PadUint(n, k), n)
  {
    hide Val, Dec;
    ValDec(n);
    IntWriter.LeadingZeros(if k > |Dec(n)| then k - |Dec(n)| else 0, Dec(n));
    DigitsReadAs(PadUint(n, k), n);
  }

  /** The fraction of a second is the remainder of the time; before the epoch, unless it is
      zero, it comes out as the modulus of the cast less the remainder of the time's size. */
  lemma FractionIs(time: int, unit: nat, perSecond: nat, modulus: nat, k: nat)
    requires FractionKind(unit, perSecond, modulus, k)
    ensures var r := (if time < 0 then -time else time) / unit % perSecond;
            Fraction(time, unit, perSecond, modulus) == if time < 0 && r > 0 then modulus - r else r
  {
    var size := if time < 0 then -time else time;
    var r := size / unit % perSecond;
    SplitSecond(size, unit, perSecond, modulus, k);
    FractionOf(time, unit, perSecond, modulus);
    hide Fraction;
    SmallRemainder(r, modulus);
    if r > 0 {
      WrappedRemainder(r, modulus);
    }
  }

  /** The flags whose text is one number. */
  predicate IsNumberField(flag: char) {
    flag in {'C', 'Y', 'm', 'd', 'H', 'I', 'M', 'S', 'E', 'e', 'f', 'F'}
  }

  /** The number that each of them stands for. */
  function NumberOf(flag: char, time: int, tm: Tm): int
    requires IsNumberField(flag)
  {
    var size: int := if time < 0 then -time else time;
    match flag
    case 'Y' => tm.year + 1900
    case 'C' => if tm.year < 0 then -(-tm.year % 100) else tm.year % 100
    case 'm' => tm.mon + 1
    case 'd' => tm.mday
    case 'H' => tm.hour
    case 'I' => if tm.hour > 12 then tm.hour - 12 else tm.hour
    case 'M' => tm.min
    case 'S' => tm.sec
    case 'E' => if time < 0 then -(-time / 1_000_000_000) else time / 1_000_000_000
    case 'e' => Wrapped(time, size / 1_000_000 % 1000, 0x1_0000_0000)
    case 'f' => Wrapped(time, size / 1000 % 1_000_000, 0x1_0000_0000_0000_0000)
    case _ => Wrapped(time, size % 1_000_000_000, 0x1_0000_0000_0000_0000)
  }

  function Wrapped(time: int, r: nat, modulus: nat): int {
    if time < 0 && r > 0 then modulus - r else r
  }

  /** Each of these fields reads back as its number, for every time and every broken-down
      time, usual or not. */
  lemma NumberReadsBack(flag: char, msg: Message, tm: Tm)
    requires IsNumberField(flag)
    ensures IsTimeField(flag) && ReadsAs(TimeText(flag, msg, tm), NumberOf(flag, msg.time, tm))
  {
    hide ReadsAs, Pad2, PadUint, Fraction, IntParsing.SignedText;
    if flag == 'e' || flag == 'f' || flag == 'F' {
      FractionReadsBack(flag, msg, tm);
    } else if flag == 'E' || flag == 'Y' {
      SignedReadsAs(NumberOf(flag, msg.time, tm));
    } else {
      hide NumberOf, ShortYear, Hour12;
      PairReadsBack(flag, msg, tm);
    }
  }

  lemma PairReadsBack(flag: char, msg: Message, tm: Tm)
    requires flag in {'C', 'm', 'd', 'H', 'I', 'M', 'S'}
    ensures TimeText(flag, msg, tm) == Pad2(NumberOf(flag, msg.time, tm))
    ensures ReadsAs(TimeText(flag, msg, tm), NumberOf(flag, msg.time, tm))
  {
    hide ReadsAs, Pad2;
    Pad2ReadsAs(NumberOf(flag, msg.time, tm));
  }

  lemma FractionReadsBack(flag: char, msg: Message, tm: Tm)
    requires flag == 'e' || flag == 'f' || flag == 'F'
    ensures ReadsAs(TimeText(flag, msg, tm), NumberOf(flag, msg.time, tm))
  {
    hide ReadsAs, PadUint, Fraction;
    if flag == 'e' {
      FractionIs(msg.time, 1_000_000, 1000, 0x1_0000_0000, 3);
      PadUintReadsAs(Millis(msg.time), 3);
    } else if flag == 'f' {
      FractionIs(msg.time, 1000, 1_000_000, SIZE_MODULUS, 6);
      PadUintReadsAs(Micros(msg.time), 6);
    } else {
      FractionIs(msg.time, 1, NANOS, SIZE_MODULUS, 9);
      PadUintReadsAs(Nanos(msg.time), 9);
    }
  }

  /** %I with %p tells the hour. */
  lemma HourFromHalf(msg: Message, tm: Tm)
    requires 0 <= tm.hour <= 23
    ensures TimeText('p', msg, tm) == "AM" || TimeText('p', msg, tm) == "PM"
    ensures ReadsAs(TimeText('I', msg, tm), if tm.hour > 12 then tm.hour - 12 else tm.hour)
    ensures var i := IntParsing.ReadSigned(TimeText('I', msg, tm));
            tm.hour == if TimeText('p', msg, tm) == "PM" && i != 12 then i + 12 else i
  {
    NumberReadsBack('I', msg, tm);
    hide Pad2, IntParsing.ReadSigned;
  }

  /** The names in full, and the short ones as their beginnings: three letters, four in
      September. */
  lemma NamesInFull(msg: Message, tm: Tm)
    requires 0 <= tm.wday <= 6 && 0 <= tm.mon <= 11
    ensures TimeText('A', msg, tm)
         == match tm.wday
            case 0 => "Sunday" case 1 => "Monday" case 2 => "Tuesday" case 3 => "Wednesday"
            case 4 => "Thursday" case 5 => "Friday" case _ => "Saturday"
    ensures TimeText('B', msg, tm)
         == match tm.mon
            case 0 => "January" case 1 => "February" case 2 => "March" case 3 => "April"
            case 4 => "May" case 5 => "June" case 6 => "July" case 7 => "August"
            case 8 => "September" case 9 => "October" case 10 => "November" case _ => "December"
    ensures 3 <= |TimeText('A', msg, tm)| && TimeText('a', msg, tm) == TimeText('A', msg, tm)[..3]
    ensures var n := if tm.mon == 8 then 4 else 3;
            && n <= |TimeText('B', msg, tm)| && TimeText('b', msg, tm) == TimeText('B', msg, tm)[..n]
            && TimeText('h', msg, tm) == TimeText('b', msg, tm)
  {
  }

  /** The longer fields, by the shorter ones. */
  lemma FieldsOfFields(msg: Message, tm: Tm)
    ensures TimeText('T', msg, tm) == TimeText('X', msg, tm)
         == TimeText('R', msg, tm) + ":" + TimeText('S', msg, tm)
    ensures TimeText('R', msg, tm) == TimeText('H', msg, tm) + ":" + TimeText('M', msg, tm)
    ensures TimeText('r', msg, tm) == TimeText('I', msg, tm) + ":" + TimeText('M', msg, tm) + ":"
                                      + TimeText('S', msg, tm) + " " + TimeText('p', msg, tm)
    ensures TimeText('D', msg, tm) == TimeText('x', msg, tm)
         == TimeText('m', msg, tm) + "/" + TimeText('d', msg, tm) + "/" + TimeText('C', msg, tm)
    ensures TimeText('c', msg, tm) == TimeText('a', msg, tm) + " " + TimeText('b', msg, tm) + " "
                                      + IntParsing.SignedText(tm.mday) + " " + TimeText('T', msg, tm) + " "
                                      + TimeText('Y', msg, tm)
  {
    hide Pad2, IntParsing.SignedText, TimeText;
    ClockFields(msg, tm);
    DateFields(msg, tm);
    var h, m, c := TimeText('H', msg, tm), TimeText('M', msg, tm), ":";
    assert h + c + m + c + TimeText('S', msg, tm) == (h + c + m) + c + TimeText('S', msg, tm);
  }

  lemma ClockFields(msg: Message, tm: Tm)
    ensures TimeText('T', msg, tm) == TimeText('X', msg, tm) == Clock(tm)
    ensures TimeText('H', msg, tm) == Pad2(tm.hour) && TimeText('M', msg, tm) == Pad2(tm.min)
    ensures TimeText('S', msg, tm) == Pad2(tm.sec) && TimeText('I', msg, tm) == Pad2(Hour12(tm))
    ensures TimeText('R', msg, tm) == Pad2(tm.hour) + ":" + Pad2(tm.min)
    ensures TimeText('r', msg, tm) == Clock12(tm) && TimeText('p', msg, tm) == AmPm(tm)
  {
    hide Pad2, Clock, Clock12, AmPm, Hour12;
  }

  lemma DateFields(msg: Message, tm: Tm)
    ensures TimeText('D', msg, tm) == TimeText('x', msg, tm) == ShortDate(tm)
    ensures TimeText('m', msg, tm) == Pad2(tm.mon + 1) && TimeText('d', msg, tm) == Pad2(tm.mday)
    ensures TimeText('C', msg, tm) == Pad2(ShortYear(tm)) && TimeText('c', msg, tm) == FullDate(tm)
    ensures TimeText('a', msg, tm) == NameAt(DAYS, tm.wday) && TimeText('b', msg, tm) == NameAt(MONTHS, tm.mon)
    ensures TimeText('Y', msg, tm) == IntParsing.SignedText(tm.year + 1900)
  {
    hide Pad2, ShortDate, ShortYear, FullDate, NameAt, IntParsing.SignedText;
  }

  // ----- The default line -----------------------------------------------------------------------

  /** The default line, by the directives of its documented pattern: the name only if there
      is one, and before the text the place in the source if there is one. */
  lemma DefaultByParts(counter: bool, msg: Message, tm: Tm, fields: Fields)
    ensures var render := Rendered(msg, tm, fields);
            render(Full) == Meaning(DATE_PART, counter, render)
                            + ((if msg.name != "" then "[" + msg.name + "] " else "")
                            + ("[" + msg.level + "] "
                            + ((if msg.line != 0 then "[" + msg.file + ":" + Dec(msg.line) + "] " else "")
                            + msg.payload)))
  {
    var render := Rendered(msg, tm, fields);
    FullSpelled(msg, tm, fields);
    DatePart("", counter, msg, tm, fields);
    assert DATE_PART + "" == DATE_PART;
    assert Meaning("", counter, render) == "";
    hide Meaning, Rendered, DateText, Dec;
    assert DateText(msg, tm) + "" == DateText(msg, tm);
  }
}
