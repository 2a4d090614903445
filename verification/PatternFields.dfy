/** The texts of a pattern's fields, how far padding knows their sizes, and patterns
    that mean the same. */
module PatternFields {
  import opened Powers
  import opened Decimal
  import opened Calendar
  import opened PatternPad
  import opened PatternCompiler
  import IntParsing
  import IntWriter

  const NANOS: nat := 1_000_000_000

  /** A message; time is in nanoseconds since the epoch, line 0 means no location. */
  datatype Message = Message(time: int, name: string, level: string, payload: string, file: string, line: nat)

  /** Whole seconds since the epoch, toward zero. */
  function Secs(time: int): int {
    TruncDiv(time, NANOS)
  }

  /** The texts of the Field formatters that are not of time. */
  type Fields = (char, Padding, Message, Tm) -> string

  // ----- Texts --------------------------------------------------------------------------

  function Pad2(n: int): string {
    if 0 <= n <= 99 then Padded(n, 2) else IntParsing.SignedText(n)
  }

  function PadUint(n: nat, width: nat): string {
    IntWriter.Repeat('0', if width > |Dec(n)| then width - |Dec(n)| else 0) + Dec(n)
  }

  /** The fraction of the second in units of `unit` nanoseconds, `perSecond` of them to
      the second, cast to an unsigned type. */
  function Fraction(time: int, unit: nat, perSecond: nat, modulus: nat): nat
    requires unit > 0 && modulus > 0
  {
    (TruncDiv(time, unit) - Secs(time) * perSecond) % modulus
  }

  function Millis(time: int): nat {
    Fraction(time, 1_000_000, 1000, 0x1_0000_0000)
  }

  function Datetime(tm: Tm): (s: string)
    ensures s != ""
  {
    "[" + IntParsing.SignedText(tm.year + 1900) + "-" + Pad2(tm.mon + 1) + "-" + Pad2(tm.mday) + " "
    + Pad2(tm.hour) + ":" + Pad2(tm.min) + ":" + Pad2(tm.sec) + "."
  }

  /** What follows the cached part of the default pattern: the milliseconds, the
      logger's name and the place in the source if there are any, the level, the text. */
  function FullRest(msg: Message): string {
    (PadUint(Millis(msg.time), 3) + "] ") + NamePart(msg) + ("[" + msg.level + "] ") + SourcePart(msg) + msg.payload
  }

  function NamePart(msg: Message): string {
    if msg.name != "" then "[" + msg.name + "] " else ""
  }

  function SourcePart(msg: Message): string {
    if msg.line != 0 then "[" + msg.file + ":" + Dec(msg.line) + "] " else ""
  }

  // ----- Fields of time -------------------------------------------------------------------

  const DAYS := ["Sun", "Mon", "Tue", "Wed", "Thu", "Fri", "Sat"]
  const FULL_DAYS := ["Sunday", "Monday", "Tuesday", "Wednesday", "Thursday", "Friday", "Saturday"]
  const MONTHS := ["Jan", "Feb", "Mar", "Apr", "May", "Jun", "Jul", "Aug", "Sept", "Oct", "Nov", "Dec"]
  const FULL_MONTHS := ["January", "February", "March", "April", "May", "June", "July", "August", "September",
                        "October", "November", "December"]

  /** An entry of one of these tables; nothing is known beyond its ends. */
  function NameAt(names: seq<string>, i: int): string {
    if 0 <= i < |names| then names[i] else ""
  }

  /** The flags for the name of the day or month, padded by the name's own size. */
  predicate IsNameField(flag: char) {
    flag in {'a', 'A', 'b', 'h', 'B'}
  }

  function NameText(flag: char, tm: Tm): string
    requires IsNameField(flag)
  {
    if flag == 'a' then NameAt(DAYS, tm.wday)
    else if flag == 'A' then NameAt(FULL_DAYS, tm.wday)
    else if flag == 'B' then NameAt(FULL_MONTHS, tm.mon)
    else NameAt(MONTHS, tm.mon)
  }

  /** The flags for a time of day, date or fraction of a second in digits. */
  predicate IsDigitField(flag: char) {
    flag in {'C', 'Y', 'D', 'x', 'm', 'd', 'H', 'I', 'M', 'S', 'e', 'f', 'F', 'E', 'p', 'r', 'R', 'T', 'X'}
  }

  /** The flags whose text is a function of the time and the broken-down time alone. */
  predicate IsTimeField(flag: char) {
    IsNameField(flag) || IsDigitField(flag) || flag == 'c'
  }

  function Hour12(tm: Tm): int {
    if tm.hour > 12 then tm.hour - 12 else tm.hour
  }

  function AmPm(tm: Tm): string {
    if tm.hour >= 12 then "PM" else "AM"
  }

  /** The last two digits of the year, with the remainder of C. */
  function ShortYear(tm: Tm): int {
    tm.year - 100 * TruncDiv(tm.year, 100)
  }

  function Clock(tm: Tm): string {
    Pad2(tm.hour) + ":" + Pad2(tm.min) + ":" + Pad2(tm.sec)
  }

  function Clock12(tm: Tm): string {
    Pad2(Hour12(tm)) + ":" + Pad2(tm.min) + ":" + Pad2(tm.sec) + " " + AmPm(tm)
  }

  function ShortDate(tm: Tm): string {
    Pad2(tm.mon + 1) + "/" + Pad2(tm.mday) + "/" + Pad2(ShortYear(tm))
  }

  /** Date and time as in "Thu Aug 23 15:35:46 2014". */
  function FullDate(tm: Tm): string {
    NameAt(DAYS, tm.wday) + " " + NameAt(MONTHS, tm.mon) + " " + IntParsing.SignedText(tm.mday) + " "
    + Clock(tm) + " " + IntParsing.SignedText(tm.year + 1900)
  }

  function Micros(time: int): nat {
    Fraction(time, 1000, 1_000_000, SIZE_MODULUS)
  }

  function Nanos(time: int): nat {
    Fraction(time, 1, NANOS, SIZE_MODULUS)
  }

  function DigitText(flag: char, msg: Message, tm: Tm): string
    requires IsDigitField(flag)
  {
    match flag
    case 'C' => Pad2(ShortYear(tm))
    case 'Y' => IntParsing.SignedText(tm.year + 1900)
    case 'm' => Pad2(tm.mon + 1)
    case 'd' => Pad2(tm.mday)
    case 'H' => Pad2(tm.hour)
    case 'I' => Pad2(Hour12(tm))
    case 'M' => Pad2(tm.min)
    case 'S' => Pad2(tm.sec)
    case 'e' => PadUint(Millis(msg.time), 3)
    case 'f' => PadUint(Micros(msg.time), 6)
    case 'F' => PadUint(Nanos(msg.time), 9)
    case 'E' => IntParsing.SignedText(Secs(msg.time))
    case 'p' => AmPm(tm)
    case 'r' => Clock12(tm)
    case 'R' => Pad2(tm.hour) + ":" + Pad2(tm.min)
    case _ => if flag == 'D' || flag == 'x' then ShortDate(tm) else Clock(tm)
  }

  function TimeText(flag: char, msg: Message, tm: Tm): string
    requires IsTimeField(flag)
  {
    if IsNameField(flag) then NameText(flag, tm)
    else if flag == 'c' then FullDate(tm)
    else DigitText(flag, msg, tm)
  }

  /** The size each of these formatters tells the padding its text has. */
  function DeclaredSize(flag: char, tm: Tm): nat
    requires IsTimeField(flag)
  {
    if IsNameField(flag) then |NameText(flag, tm)|
    else
      match flag
      case 'c' => 24
      case 'Y' => 4
      case 'D' => 10
      case 'x' => 10
      case 'e' => 3
      case 'f' => 6
      case 'F' => 9
      case 'E' => 10
      case 'r' => 11
      case 'R' => 5
      case 'T' => 8
      case 'X' => 8
      case _ => 2
  }

  /** What each formatter writes for a message, given the broken-down time to use. */
  function Rendered(msg: Message, tm: Tm, fields: Fields): Rendering {
    (f: FlagFormatter) =>
         match f
         case Full => Datetime(tm) + FullRest(msg)
         case Name(p) => PadText(msg.name, p)
         case Level(p) => PadText(msg.level, p)
         case Payload(p) => PadText(msg.payload, p)
         case Percent => "%"
         case Aggregate(text) => text
         case Field(flag, p) =>
           if IsTimeField(flag) then PaddedAs(TimeText(flag, msg, tm), DeclaredSize(flag, tm), p)
           else fields(flag, p, msg, tm)
  }

  // ----- Fields that fit the size they declare --------------------------------------------------

  /** A broken-down time of the usual kind, years 1000 to 9999; 64-bit nanoseconds
      reach from 1677 to 2262. */
  predicate Usual(tm: Tm) {
    && -900 <= tm.year <= 8099 && 0 <= tm.mon <= 11 && 1 <= tm.mday <= 31 && 0 <= tm.wday <= 6
    && 0 <= tm.hour <= 23 && 0 <= tm.min <= 59 && 0 <= tm.sec <= 60
  }

  lemma Pad2Length(n: int)
    requires -99 <= n <= 99
    ensures |Pad2(n)| == if n <= -10 then 3 else 2
  {
    if n < 0 {
      DigitsIff(-n, if n <= -10 then 2 else 1);
      assert Ten(1) == 10 && Ten(2) == 100;
    }
  }

  /** A number has k digits exactly between the powers of ten. */
  lemma DigitsIff(n: nat, k: nat)
    requires k >= 1
    ensures |Dec(n)| == k <==> n < Ten(k) && (k > 1 ==> Ten(k - 1) <= n)
  {
    DecLength(n);
    if n < Ten(k) && (k > 1 ==> Ten(k - 1) <= n) {
      DecLengthIs(n, k);
    }
  }

  lemma YearLength4(year: int)
    requires 1000 <= year <= 9999
    ensures |IntParsing.SignedText(year)| == 4
  {
    SmallTens();
    DigitsIff(year, 4);
  }

  lemma SmallTens()
    ensures Ten(1) == 10 && Ten(2) == 100 && Ten(3) == 1000 && Ten(4) == 10000
  {
    assert Ten(1) == 10 && Ten(2) == 100 && Ten(3) == 1000;
    TenAdd(1, 3);
  }

  lemma LargeTens()
    ensures Ten(6) == 1_000_000 && Ten(8) == 100_000_000 && Ten(9) == NANOS && Ten(10) == 10 * NANOS
  {
    SmallTens();
    TenAdd(3, 3);
    TenAdd(2, 6);
    TenAdd(3, 6);
    TenAdd(1, 9);
  }

  /** Ten digits, or nine and a sign. */
  predicate TenCharacters(n: int) {
    1_000_000_000 <= n < 10_000_000_000 || -1_000_000_000 < n <= -100_000_000
  }

  /** The seconds since the epoch take ten characters exactly from September 2001 to
      November 2286, and from 1938 to 1966 with the sign. */
  lemma SecondsLength(n: int)
    ensures |IntParsing.SignedText(n)| == 10 <==> TenCharacters(n)
  {
    LargeTens();
    hide Dec, Ten;
    if n < 0 {
      DigitsIff(-n, 9);
    } else {
      DigitsIff(n, 10);
    }
  }

  /** The unit, units a second and digits of %e, %f and %F, with the modulus of the cast. */
  predicate FractionKind(unit: nat, perSecond: nat, modulus: nat, k: nat) {
    || (unit == 1_000_000 && perSecond == 1000 && modulus == 0x1_0000_0000 && k == 3)
    || (unit == 1000 && perSecond == 1_000_000 && modulus == SIZE_MODULUS && k == 6)
    || (unit == 1 && perSecond == NANOS && modulus == SIZE_MODULUS && k == 9)
  }

  /** The fraction of the second is not negative: from the epoch on always, before it
      only in whole units of the second. */
  predicate NoFractionBefore(time: int, unit: nat, perSecond: nat)
    requires unit > 0 && perSecond > 0
  {
    time >= 0 || -time / unit % perSecond == 0
  }

  /** For every time, a fraction of a second takes the digits it is given exactly when
      it is not negative; a negative one wraps to a huge number in the cast. */
  lemma FractionLength(time: int, unit: nat, perSecond: nat, modulus: nat, k: nat)
    requires FractionKind(unit, perSecond, modulus, k)
    ensures time >= 0 ==> Fraction(time, unit, perSecond, modulus) == time / unit % perSecond
    ensures |PadUint(Fraction(time, unit, perSecond, modulus), k)| == k <==> NoFractionBefore(time, unit, perSecond)
  {
    var size := if time < 0 then -time else time;
    var r := size / unit % perSecond;
    SplitSecond(size, unit, perSecond, modulus, k);
    CastFraction(r, perSecond, modulus, k);
    FractionOf(time, unit, perSecond, modulus);
    hide PadUint, Fraction;
  }

  /** The fraction is a remainder of the time's size, with its sign, cast. */
  lemma FractionOf(time: int, unit: nat, perSecond: nat, modulus: nat)
    requires unit > 0 && modulus > 0
    ensures var size := if time < 0 then -time else time;
            var r := size / unit - size / NANOS * perSecond;
            Fraction(time, unit, perSecond, modulus) == (if time < 0 then 0 - r else r) % modulus
  {
    if time < 0 {
      var w, n := -time / unit, -time / NANOS;
      assert (0 - n) * perSecond == 0 - n * perSecond;
    }
  }

  lemma CastFraction(r: nat, perSecond: nat, modulus: nat, k: nat)
    requires FractionKind(if k == 3 then 1_000_000 else if k == 6 then 1000 else 1, perSecond, modulus, k)
    requires r < perSecond
    ensures r % modulus == r && |PadUint(r, k)| == k
    ensures |PadUint((0 - r) % modulus, k)| == k <==> r == 0
  {
    hide PadUint;
    SmallRemainder(r, modulus);
    PadUintLength(r, perSecond, k);
    if r > 0 {
      WrappedRemainder(r, modulus);
      PadUintLength(modulus - r, perSecond, k);
    } else {
      SmallRemainder(0, modulus);
    }
  }

  lemma SplitSecond(size: nat, unit: nat, perSecond: nat, modulus: nat, k: nat)
    requires FractionKind(unit, perSecond, modulus, k)
    ensures size / unit - size / NANOS * perSecond == size / unit % perSecond
  {
    if k == 3 {
      MillisQuotient(size);
    } else if k == 6 {
      MicrosQuotient(size);
    }
  }

  lemma MillisQuotient(time: nat)
    ensures time / 1_000_000 / 1000 == time / NANOS
  {
  }

  lemma MicrosQuotient(time: nat)
    ensures time / 1000 / 1_000_000 == time / NANOS
  {
  }

  lemma SmallRemainder(f: nat, modulus: nat)
    requires f < modulus
    ensures f % modulus == f
  {
  }

  lemma WrappedRemainder(r: nat, modulus: nat)
    requires 0 < r < modulus && (modulus == 0x1_0000_0000 || modulus == SIZE_MODULUS)
    ensures (0 - r) % modulus == modulus - r
  {
  }

  lemma PadUintLength(n: nat, limit: nat, k: nat)
    requires (k == 3 && limit == 1000) || (k == 6 && limit == 1_000_000) || (k == 9 && limit == NANOS)
    ensures |PadUint(n, k)| == k <==> n < limit
  {
    SmallTens();
    LargeTens();
    DecLength(n);
    hide Dec, Ten;
    if |Dec(n)| > k {
      TenMonotone(k, |Dec(n)| - 1);
    } else {
      TenMonotone(|Dec(n)|, k);
    }
  }

  /** When the size a field of time declares is its size, for the usual times. */
  predicate SizeIsTrue(flag: char, msg: Message, tm: Tm)
    requires IsTimeField(flag)
  {
    match flag
    case 'D' => false
    case 'x' => false
    case 'C' => ShortYear(tm) > -10
    case 'c' => (tm.mon == 8) != (tm.mday >= 10)
    case 'E' => TenCharacters(Secs(msg.time))
    case 'e' => NoFractionBefore(msg.time, 1_000_000, 1000)
    case 'f' => NoFractionBefore(msg.time, 1000, 1_000_000)
    case 'F' => NoFractionBefore(msg.time, 1, NANOS)
    case _ => true
  }

  /** %c is short by one on the days with one digit, and long by one in September. */
  lemma FullDateLength(tm: Tm)
    requires Usual(tm)
    ensures |FullDate(tm)| == 24 <==> (tm.mon == 8) != (tm.mday >= 10)
  {
    TwoDigits(tm);
    YearLength4(tm.year + 1900);
    SmallTens();
    DigitsIff(tm.mday, 1);
    DigitsIff(tm.mday, 2);
    hide Pad2, Dec, Ten;
    assert |NameAt(DAYS, tm.wday)| == 3;
    assert |NameAt(MONTHS, tm.mon)| == if tm.mon == 8 then 4 else 3;
  }

  lemma TwoDigits(tm: Tm)
    requires Usual(tm)
    ensures |Pad2(ShortYear(tm))| == if ShortYear(tm) <= -10 then 3 else 2
    ensures |Pad2(tm.mon + 1)| == |Pad2(tm.mday)| == |Pad2(tm.hour)| == 2
    ensures |Pad2(tm.min)| == |Pad2(tm.sec)| == |Pad2(Hour12(tm))| == 2
  {
    hide Pad2;
    Pad2Length(ShortYear(tm));
    Pad2Length(tm.mon + 1);
    Pad2Length(tm.mday);
    Pad2Length(tm.hour);
    Pad2Length(tm.min);
    Pad2Length(tm.sec);
    Pad2Length(Hour12(tm));
  }

  /** For the usual broken-down times and every message time: exactly when a field of
      time has the size it declares. */
  lemma FieldFits(flag: char, msg: Message, tm: Tm)
    requires IsTimeField(flag) && Usual(tm)
    ensures |TimeText(flag, msg, tm)| == DeclaredSize(flag, tm) <==> SizeIsTrue(flag, msg, tm)
  {
    if flag == 'c' {
      FullDateLength(tm);
      hide FullDate;
    } else if flag == 'e' || flag == 'f' || flag == 'F' {
      FractionFits(flag, msg, tm);
    } else if IsDigitField(flag) {
      DigitsFit(flag, msg, tm);
    }
  }

  lemma FractionFits(flag: char, msg: Message, tm: Tm)
    requires flag == 'e' || flag == 'f' || flag == 'F'
    ensures |TimeText(flag, msg, tm)| == DeclaredSize(flag, tm) <==> SizeIsTrue(flag, msg, tm)
  {
    hide PadUint, Fraction, NoFractionBefore;
    if flag == 'e' {
      FractionLength(msg.time, 1_000_000, 1000, 0x1_0000_0000, 3);
    } else if flag == 'f' {
      FractionLength(msg.time, 1000, 1_000_000, SIZE_MODULUS, 6);
    } else {
      FractionLength(msg.time, 1, NANOS, SIZE_MODULUS, 9);
    }
  }

  lemma DigitsFit(flag: char, msg: Message, tm: Tm)
    requires IsDigitField(flag) && flag != 'e' && flag != 'f' && flag != 'F' && Usual(tm)
    ensures |TimeText(flag, msg, tm)| == DeclaredSize(flag, tm) <==> SizeIsTrue(flag, msg, tm)
  {
    if flag == 'E' {
      SecondsLength(Secs(msg.time));
      hide Secs, IntParsing.SignedText, TenCharacters;
    } else if flag == 'Y' {
      YearLength4(tm.year + 1900);
      hide IntParsing.SignedText;
    } else {
      PairsFit(flag, msg, tm);
    }
  }

  lemma PairsFit(flag: char, msg: Message, tm: Tm)
    requires flag in {'C', 'D', 'x', 'm', 'd', 'H', 'I', 'M', 'S', 'p', 'r', 'R', 'T', 'X'} && Usual(tm)
    ensures |TimeText(flag, msg, tm)| == DeclaredSize(flag, tm) <==> SizeIsTrue(flag, msg, tm)
  {
    TwoDigits(tm);
    LongTexts(tm);
    hide Pad2, Secs, IntParsing.SignedText, ShortYear, Hour12, TenCharacters, Clock, Clock12, ShortDate;
  }

  lemma LongTexts(tm: Tm)
    requires Usual(tm)
    ensures |Clock(tm)| == 8 && |Clock12(tm)| == 11 && 8 <= |ShortDate(tm)| <= 9
  {
    TwoDigits(tm);
    hide Pad2, ShortYear, Hour12;
  }

  /** A field of time is as wide as asked for every width a pattern can ask, exactly when
      the size it declares is its size. */
  lemma EveryWidthHonoured(flag: char, msg: Message, tm: Tm)
    requires IsTimeField(flag) && Usual(tm)
    ensures (forall p: Padding :: p.Bounded() ==> Honoured(TimeText(flag, msg, tm), DeclaredSize(flag, tm), p))
       <==> SizeIsTrue(flag, msg, tm)
  {
    FieldFits(flag, msg, tm);
    var text, size := TimeText(flag, msg, tm), DeclaredSize(flag, tm);
    forall p: Padding
      ensures Honoured(text, size, p) <==> |text| == size || (p.width <= size && p.width <= |text|)
    {
      WidthHonoured(text, size, p);
    }
    if |text| != size {
      assert size < MAX_WIDTH;
      assert !Honoured(text, size, Padding(size + 1, Left));
    }
  }

  /** The short date declares ten characters and has eight, or nine in the years whose
      short form is below -9: a width is honoured exactly when the text fills it. */
  lemma ShortDateTooNarrow(msg: Message, tm: Tm, p: Padding)
    requires Usual(tm)
    ensures var text := TimeText('D', msg, tm);
            && |text| == (if ShortYear(tm) <= -10 then 9 else 8)
            && (Honoured(text, DeclaredSize('D', tm), p) <==> p.width <= |text|)
            && (p.width > 10 ==> |PaddedAs(text, DeclaredSize('D', tm), p)| == p.width - 10 + |text|)
  {
    TwoDigits(tm);
    hide Pad2;
    WidthHonoured(TimeText('D', msg, tm), 10, p);
  }

  // ----- Patterns that mean the same --------------------------------------------------------

  lemma RenderedIsLiteral(msg: Message, tm: Tm, fields: Fields)
    ensures Literal(Rendered(msg, tm, fields))
  {
  }

  /** A field of time without padding. */
  lemma PlainField(flag: char, rest: string, counter: bool, msg: Message, tm: Tm, fields: Fields)
    requires IsTimeField(flag)
    ensures var render := Rendered(msg, tm, fields);
            Meaning(['%', flag] + rest, counter, render)
            == TimeText(flag, msg, tm) + Meaning(rest, counter, render)
  {
    var render := Rendered(msg, tm, fields);
    MeaningFlag(flag, rest, counter, render);
    hide Meaning;
    hide TimeText;
    assert HandleFlag(flag, NO_PADDING, counter) == Field(flag, NO_PADDING);
    NoSpaces(TimeText(flag, msg, tm), DeclaredSize(flag, tm));
  }

  /** %T is %H:%M:%S. */
  lemma ClockPattern(counter: bool, msg: Message, tm: Tm, fields: Fields)
    ensures var render := Rendered(msg, tm, fields);
            Meaning("%T", counter, render) == Meaning("%H:%M:%S", counter, render)
  {
    hide *;
    AllTimeFields();
    Alone("%T", 'T', counter, msg, tm, fields);
    Three("%H:%M:%S", 'H', 'M', 'S', ':', counter, msg, tm, fields);
    TextsOfThree(msg, tm);
  }

  /** %D is %m/%d/%C. */
  lemma DatePattern(counter: bool, msg: Message, tm: Tm, fields: Fields)
    ensures var render := Rendered(msg, tm, fields);
            Meaning("%D", counter, render) == Meaning("%m/%d/%C", counter, render)
  {
    hide *;
    AllTimeFields();
    Alone("%D", 'D', counter, msg, tm, fields);
    Three("%m/%d/%C", 'm', 'd', 'C', '/', counter, msg, tm, fields);
    TextsOfThree(msg, tm);
  }

  /** %D never is %m/%d/%y, as its comment has it: there is no %y, and it is shown as it is. */
  lemma ShortYearFlagMissing(counter: bool, msg: Message, tm: Tm, fields: Fields)
    ensures var render := Rendered(msg, tm, fields);
            Meaning("%D", counter, render) != Meaning("%m/%d/%y", counter, render)
  {
    hide *;
    var render := Rendered(msg, tm, fields);
    AllTimeFields();
    Alone("%D", 'D', counter, msg, tm, fields);
    TextsOfThree(msg, tm);
    assert "%m/%d/%y" == ['%', 'm', '/'] + (['%', 'd', '/'] + "%y");
    Separated("%m/%d/%y", 'm', '/', ['%', 'd', '/'] + "%y", counter, msg, tm, fields);
    Separated(['%', 'd', '/'] + "%y", 'd', '/', "%y", counter, msg, tm, fields);
    UnknownY(counter, msg, tm, fields);
    YearIsNoPercent(msg, tm);
    CommonStart(TimeText('m', msg, tm), TimeText('d', msg, tm), TimeText('C', msg, tm), "%y");
  }

  lemma UnknownY(counter: bool, msg: Message, tm: Tm, fields: Fields)
    ensures Meaning("%y", counter, Rendered(msg, tm, fields)) == "%y"
  {
    var render := Rendered(msg, tm, fields);
    RenderedIsLiteral(msg, tm, fields);
    assert "%y" == ['%', 'y'] + "";
    MeaningFlag('y', "", counter, render);
    assert HandleFlag('y', NO_PADDING, counter) == Aggregate(['%', 'y']);
    assert Meaning("", counter, render) == "";
    hide Rendered;
    assert ['%', 'y'] + "" == "%y";
  }

  lemma YearIsNoPercent(msg: Message, tm: Tm)
    ensures TimeText('C', msg, tm) != "" && TimeText('C', msg, tm)[0] != '%'
  {
    var n := ShortYear(tm);
    hide ShortYear;
    assert Pad2(n) != "" && (IsDigit(Pad2(n)[0]) || Pad2(n)[0] == '-');
  }

  lemma CommonStart(x: string, y: string, a: string, b: string)
    requires a != "" && b != ""
    ensures a[0] != b[0] ==> x + (['/'] + (y + (['/'] + a))) != x + (['/'] + (y + (['/'] + b)))
  {
    var k := |x| + |y| + 2;
    assert (x + (['/'] + (y + (['/'] + a))))[k] == a[0];
    assert (x + (['/'] + (y + (['/'] + b))))[k] == b[0];
  }

  lemma TextsOfThree(msg: Message, tm: Tm)
    ensures TimeText('T', msg, tm)
         == TimeText('H', msg, tm) + ([':'] + (TimeText('M', msg, tm) + ([':'] + TimeText('S', msg, tm))))
    ensures TimeText('D', msg, tm)
         == TimeText('m', msg, tm) + (['/'] + (TimeText('d', msg, tm) + (['/'] + TimeText('C', msg, tm))))
  {
    hide Pad2;
    Five(Pad2(tm.hour), ":", Pad2(tm.min), ":", Pad2(tm.sec));
    Five(Pad2(tm.mon + 1), "/", Pad2(tm.mday), "/", Pad2(ShortYear(tm)));
  }

  lemma Five(a: string, b: string, c: string, d: string, e: string)
    ensures a + (b + (c + (d + e))) == a + b + c + d + e
  {
  }

  /** A field of time that is the whole pattern. */
  lemma Alone(s: string, flag: char, counter: bool, msg: Message, tm: Tm, fields: Fields)
    requires IsTimeField(flag) && s == ['%', flag]
    ensures Meaning(s, counter, Rendered(msg, tm, fields)) == TimeText(flag, msg, tm)
  {
    hide IsTimeField, TimeText;
    assert s == ['%', flag] + "";
    PlainField(flag, "", counter, msg, tm, fields);
    assert TimeText(flag, msg, tm) + "" == TimeText(flag, msg, tm);
  }

  /** A field of time with a plain character after it. */
  lemma Separated(s: string, flag: char, c: char, rest: string, counter: bool, msg: Message, tm: Tm, fields: Fields)
    requires IsTimeField(flag) && c != '%' && s == ['%', flag, c] + rest
    ensures var render := Rendered(msg, tm, fields);
            Meaning(s, counter, render) == TimeText(flag, msg, tm) + ([c] + Meaning(rest, counter, render))
  {
    hide *;
    var render := Rendered(msg, tm, fields);
    assert s == ['%', flag] + ([c] + rest);
    PlainField(flag, [c] + rest, counter, msg, tm, fields);
    MeaningChar(c, rest, counter, render);
  }

  /** Three fields of time with plain characters between them. */
  lemma Three(s: string, x: char, y: char, z: char, c: char, counter: bool, msg: Message, tm: Tm, fields: Fields)
    requires IsTimeField(x) && IsTimeField(y) && IsTimeField(z) && c != '%'
    requires s == ['%', x, c, '%', y, c, '%', z]
    ensures Meaning(s, counter, Rendered(msg, tm, fields))
         == TimeText(x, msg, tm) + ([c] + (TimeText(y, msg, tm) + ([c] + TimeText(z, msg, tm))))
  {
    hide *;
    assert s == ['%', x, c] + (['%', y, c] + ['%', z]);
    Separated(s, x, c, ['%', y, c] + ['%', z], counter, msg, tm, fields);
    Separated(['%', y, c] + ['%', z], y, c, ['%', z], counter, msg, tm, fields);
    Alone(['%', z], z, counter, msg, tm, fields);
  }

  // ----- The default pattern ------------------------------------------------------------------

  /** A bracketed field of the kind of the logger's name, and the space after it. */
  lemma Bracketed(s: string, flag: char, rest: string, text: string, counter: bool, msg: Message, tm: Tm, fields: Fields)
    requires (flag == 'n' && text == msg.name) || (flag == 'l' && text == msg.level)
    requires s == ['[', '%', flag, ']', ' '] + rest
    ensures var render := Rendered(msg, tm, fields);
            Meaning(s, counter, render) == ("[" + text + "] ") + Meaning(rest, counter, render)
  {
    var render := Rendered(msg, tm, fields);
    NamedField(flag, text, counter, msg, tm, fields);
    hide *;
    BracketedSpelled(flag, rest);
    MeaningChar('[', ['%', flag] + ([']'] + ([' '] + rest)), counter, render);
    MeaningFlag(flag, [']'] + ([' '] + rest), counter, render);
    MeaningChar(']', [' '] + rest, counter, render);
    MeaningChar(' ', rest, counter, render);
    Closed("[", text, "]", " ", Meaning(rest, counter, render));
    Reassociate("[" + text, "]", " ");
    assert "]" + " " == "] ";
  }

  lemma NamedField(flag: char, text: string, counter: bool, msg: Message, tm: Tm, fields: Fields)
    requires (flag == 'n' && text == msg.name) || (flag == 'l' && text == msg.level)
    ensures Rendered(msg, tm, fields)(HandleFlag(flag, NO_PADDING, counter)) == text
  {
    UnpaddedField(text, NO_PADDING);
    hide PadText;
  }

  lemma BracketedSpelled(flag: char, rest: string)
    ensures ['[', '%', flag, ']', ' '] + rest == ['['] + (['%', flag] + ([']'] + ([' '] + rest)))
  {
  }

  lemma Closed(a: string, b: string, c: string, d: string, e: string)
    ensures a + (b + (c + (d + e))) == (a + b + c + d) + e
  {
  }

  const DATE_PART := "[%Y-%m-%d %H:%M:%S.%e] "

  function DateText(msg: Message, tm: Tm): string {
    Datetime(tm) + (PadUint(Millis(msg.time), 3) + "] ")
  }

  /** The date and time of the default pattern. */
  lemma DatePart(rest: string, counter: bool, msg: Message, tm: Tm, fields: Fields)
    ensures var render := Rendered(msg, tm, fields);
            Meaning(DATE_PART + rest, counter, render) == DateText(msg, tm) + Meaning(rest, counter, render)
  {
    hide *;
    var render := Rendered(msg, tm, fields);
    var s7 := "%e] " + rest;
    var s6 := "%S." + s7;
    var s5 := "%M:" + s6;
    var s4 := "%H:" + s5;
    var s3 := "%d " + s4;
    var s2 := "%m-" + s3;
    var s1 := "%Y-" + s2;
    DatePartSpelled(rest, s1, s2, s3, s4, s5, s6, s7);
    MeaningChar('[', s1, counter, render);
    AllTimeFields();
    Separated(s1, 'Y', '-', s2, counter, msg, tm, fields);
    Separated(s2, 'm', '-', s3, counter, msg, tm, fields);
    Separated(s3, 'd', ' ', s4, counter, msg, tm, fields);
    Separated(s4, 'H', ':', s5, counter, msg, tm, fields);
    Separated(s5, 'M', ':', s6, counter, msg, tm, fields);
    Separated(s6, 'S', '.', s7, counter, msg, tm, fields);
    Separated(s7, 'e', ']', " " + rest, counter, msg, tm, fields);
    MeaningChar(' ', rest, counter, render);
    DateTextSpelled(msg, tm, Meaning(rest, counter, render));
  }

  lemma DatePartSpelled(rest: string, s1: string, s2: string, s3: string, s4: string, s5: string, s6: string, s7: string)
    requires s7 == "%e] " + rest && s6 == "%S." + s7 && s5 == "%M:" + s6 && s4 == "%H:" + s5
    requires s3 == "%d " + s4 && s2 == "%m-" + s3 && s1 == "%Y-" + s2
    ensures DATE_PART + rest == ['['] + s1 && s7 == ['%', 'e', ']'] + (" " + rest)
  {
  }

  lemma AllTimeFields()
    ensures IsTimeField('Y') && IsTimeField('m') && IsTimeField('d') && IsTimeField('H')
    ensures IsTimeField('M') && IsTimeField('S') && IsTimeField('e')
    ensures IsTimeField('T') && IsTimeField('D') && IsTimeField('C')
  {
  }

  lemma DateTextSpelled(msg: Message, tm: Tm, rest: string)
    ensures ['['] + (TimeText('Y', msg, tm) + (['-'] + (TimeText('m', msg, tm) + (['-'] + (TimeText('d', msg, tm)
             + ([' '] + (TimeText('H', msg, tm) + ([':'] + (TimeText('M', msg, tm) + ([':'] + (TimeText('S', msg, tm)
             + (['.'] + (TimeText('e', msg, tm) + ([']'] + ([' '] + rest)))))))))))))))
             == DateText(msg, tm) + rest
  {
    TextsOfDate(msg, tm);
    var e := PadUint(Millis(msg.time), 3);
    var tail := e + ("]" + (" " + rest));
    Thirteen("[", IntParsing.SignedText(tm.year + 1900), "-", Pad2(tm.mon + 1), "-", Pad2(tm.mday), " ",
             Pad2(tm.hour), ":", Pad2(tm.min), ":", Pad2(tm.sec), ".", tail);
    hide *;
    assert "]" + " " == "] ";
    Reassociate("]", " ", rest);
    Reassociate(e, "] ", rest);
    Reassociate(Datetime(tm), e + "] ", rest);
    DateTextIs(msg, tm);
  }

  lemma DateTextIs(msg: Message, tm: Tm)
    ensures DateText(msg, tm) == Datetime(tm) + (PadUint(Millis(msg.time), 3) + "] ")
  {
    hide Datetime, PadUint, Millis;
  }

  lemma Reassociate(x: string, y: string, z: string)
    ensures x + (y + z) == (x + y) + z
  {
  }

  /** A sum of strings grouped from the right is that grouped from the left. */
  lemma Thirteen(a: string, b: string, c: string, d: string, e: string, f: string, g: string,
                 h: string, i: string, j: string, k: string, l: string, m: string,
                 rest: string)
    ensures a + (b + (c + (d + (e + (f + (g + (h + (i + (j + (k + (l + (m + rest))))))))))))
         == a + b + c + d + e + f + g + h + i + j + k + l + m + rest
  {
    var r12 := m + rest;
    var r11 := l + r12;
    var r10 := k + r11;
    var r9 := j + r10;
    var r8 := i + r9;
    var r7 := h + r8;
    var r6 := g + r7;
    var r5 := f + r6;
    var r4 := e + r5;
    var r3 := d + r4;
    var r2 := c + r3;
    var r1 := b + r2;
    var s1 := a + b;
    var s2 := s1 + c;
    var s3 := s2 + d;
    var s4 := s3 + e;
    var s5 := s4 + f;
    var s6 := s5 + g;
    var s7 := s6 + h;
    var s8 := s7 + i;
    var s9 := s8 + j;
    var s10 := s9 + k;
    var s11 := s10 + l;
    var s12 := s11 + m;
    Reassociate(a, b, r2);
    Reassociate(s1, c, r3);
    Reassociate(s2, d, r4);
    Reassociate(s3, e, r5);
    Reassociate(s4, f, r6);
    Reassociate(s5, g, r7);
    Reassociate(s6, h, r8);
    Reassociate(s7, i, r9);
    Reassociate(s8, j, r10);
    Reassociate(s9, k, r11);
    Reassociate(s10, l, r12);
    Reassociate(s11, m, rest);
  }

  lemma TextsOfDate(msg: Message, tm: Tm)
    ensures TimeText('Y', msg, tm) == IntParsing.SignedText(tm.year + 1900)
    ensures TimeText('m', msg, tm) == Pad2(tm.mon + 1) && TimeText('d', msg, tm) == Pad2(tm.mday)
    ensures TimeText('H', msg, tm) == Pad2(tm.hour) && TimeText('M', msg, tm) == Pad2(tm.min)
    ensures TimeText('S', msg, tm) == Pad2(tm.sec) && TimeText('e', msg, tm) == PadUint(Millis(msg.time), 3)
  {
    hide Pad2, PadUint, Millis, IntParsing.SignedText;
  }

  /** The pattern the default formatter is documented to have. */
  const DOCUMENTED := "[%Y-%m-%d %H:%M:%S.%e] [%n] [%l] %v"

  lemma DocumentedMeaning(counter: bool, msg: Message, tm: Tm, fields: Fields)
    ensures Meaning(DOCUMENTED, counter, Rendered(msg, tm, fields))
         == DateText(msg, tm) + (("[" + msg.name + "] ") + (("[" + msg.level + "] ") + msg.payload))
  {
    hide *;
    DocumentedSpelled();
    DatePart("[%n] " + ("[%l] " + "%v"), counter, msg, tm, fields);
    Bracketed("[%n] " + ("[%l] " + "%v"), 'n', "[%l] " + "%v", msg.name, counter, msg, tm, fields);
    Bracketed("[%l] " + "%v", 'l', "%v", msg.level, counter, msg, tm, fields);
    PayloadAlone(counter, msg, tm, fields);
  }

  lemma DocumentedSpelled()
    ensures DOCUMENTED == DATE_PART + ("[%n] " + ("[%l] " + "%v"))
    ensures "[%n] " == ['[', '%', 'n', ']', ' '] && "[%l] " == ['[', '%', 'l', ']', ' ']
  {
  }

  lemma PayloadAlone(counter: bool, msg: Message, tm: Tm, fields: Fields)
    ensures Meaning("%v", counter, Rendered(msg, tm, fields)) == msg.payload
  {
    var render := Rendered(msg, tm, fields);
    UnpaddedField(msg.payload, NO_PADDING);
    assert render(HandleFlag('v', NO_PADDING, counter)) == msg.payload;
    assert Meaning("", counter, render) == "";
    hide Rendered, Meaning;
    MeaningFlag('v', "", counter, render);
    assert "%v" == ['%', 'v'] + "";
    assert msg.payload + "" == msg.payload;
  }

  /** The default formatter is that pattern exactly for messages of a named logger that
      carry no place in the source. */
  lemma DefaultIsDocumented(counter: bool, msg: Message, tm: Tm, fields: Fields)
    ensures Rendered(msg, tm, fields)(Full) == Meaning(DOCUMENTED, counter, Rendered(msg, tm, fields))
       <==> msg.name != "" && msg.line == 0
  {
    DocumentedMeaning(counter, msg, tm, fields);
    FullSpelled(msg, tm, fields);
    hide Meaning, Rendered, DateText;
    var name, level := "[" + msg.name + "] ", "[" + msg.level + "] ";
    if msg.name != "" && msg.line == 0 {
      assert level + ("" + msg.payload) == level + msg.payload;
    }
  }

  lemma FullSpelled(msg: Message, tm: Tm, fields: Fields)
    ensures Rendered(msg, tm, fields)(Full)
         == DateText(msg, tm) + (NamePart(msg) + (("[" + msg.level + "] ") + (SourcePart(msg) + msg.payload)))
  {
    hide Datetime, PadUint, Millis, NamePart, SourcePart;
    assert Rendered(msg, tm, fields)(Full) == Datetime(tm) + FullRest(msg);
    Nested(Datetime(tm), PadUint(Millis(msg.time), 3) + "] ", NamePart(msg), "[" + msg.level + "] ",
           SourcePart(msg), msg.payload);
  }

  lemma Nested(d: string, m: string, n: string, l: string, s: string, p: string)
    ensures d + (m + n + l + s + p) == (d + m) + (n + (l + (s + p)))
  {
  }
}
