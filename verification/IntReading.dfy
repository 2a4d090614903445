/** Formatted integers read back, with their signs and radix prefixes. */
module IntReading {
  import opened Powers
  import opened Decimal
  import opened IntDigits
  import opened IntWriter
  import IntParsing

  /** Without width, precision and flags the text is the plain one that signed integers have. */
  lemma PlainText(value: int, spec: Spec, sep: char)
    requires (spec.typ == '\0' || spec.typ == 'd') && spec.width == 0 && spec.precision <= 0 && !spec.sign
    ensures IntText(value, spec, sep) == [IntParsing.SignedText(value)]
  {
    var sign, digits := SignPrefix(value, spec), Dec(Abs(value));
    hide Dec;
    assert Repeat(spec.fill, 0) == "" == Repeat('0', 0);
    Bare(sign, digits, "");
    assert Layout(sign, digits, spec) == sign + digits;
    assert "" + digits == digits;
  }

  lemma Bare(sign: string, digits: string, none: string)
    requires none == ""
    ensures none + (sign + none + digits) + none == sign + digits
    ensures |sign + none + digits| == |sign + digits|
  {
    assert sign + none == sign;
  }

  /** The sign: '-' for negative numbers and for them alone; for the others the sign asked
      for, if any. */
  function SignFor(value: int, spec: Spec): string {
    if value < 0 then "-"
    else if spec.sign && spec.plus then "+"
    else if spec.sign then " "
    else ""
  }

  /** The mark of the radix under '#'. */
  predicate RadixMark(mark: string, value: int, spec: Spec) {
    if spec.hash && spec.typ == 'x' then mark == "0x"
    else if spec.hash && spec.typ == 'X' then mark == "0X"
    else if spec.hash && spec.typ == 'b' then mark == "0b"
    else if spec.hash && spec.typ == 'B' then mark == "0B"
    else if spec.hash && spec.typ == 'o' then
      mark == if spec.precision > |RadixDigits(Abs(value), 3, false)| then "" else "0"
    else mark == ""
  }

  // ----- A reader -------------------------------------------------------------------------------

  /** What a text after its sign denotes. A radix mark is passed over. */
  function Magnitude(typ: char, sep: char, s: string): nat {
    if typ == '\0' || typ == 'd' then (if AllDigits(s) then Val(s) else 0)
    else if typ == 'n' then (if AllDigits(Without(s, sep)) then Val(Without(s, sep)) else 0)
    else if typ != 'o' && |s| >= 2 && s[..2] == ['0', typ] then RadixValue(s[2..], BitsOf(typ))
    else RadixValue(s, BitsOf(typ))
  }

  /** What a text denotes: a minus sign negates, a plus sign or a space does not. */
  function ReadText(typ: char, sep: char, s: string): int {
    if s != "" && s[0] == '-' then 0 - Magnitude(typ, sep, s[1..])
    else if s != "" && (s[0] == '+' || s[0] == ' ') then Magnitude(typ, sep, s[1..])
    else Magnitude(typ, sep, s)
  }

  predicate IntType(typ: char) {
    typ in {'\0', 'd', 'x', 'X', 'b', 'B', 'o', 'n'}
  }

  /** Digits begin with a digit of the notation, which is neither a sign nor a space. */
  lemma FirstDigit(value: int, z: nat, typ: char, sep: char)
    requires IntType(typ)
    ensures Numeral(typ, Repeat('0', z) + Digits(value, typ, sep))
  {
    var n := Abs(value);
    if typ == '\0' || typ == 'd' {
      assert IsDigit(Dec(n)[0]);
    } else if typ == 'n' {
      GroupedFirst(n, [sep]);
    } else {
      RadixCase(n, BitsOf(typ), typ == 'X');
    }
    hide Dec, Grouped, RadixDigits;
  }

  lemma {:induction false} GroupedFirst(n: nat, sep: string)
    ensures Grouped(n, sep) != "" && IsDigit(Grouped(n, sep)[0])
  {
    if n >= 1000 {
      GroupedFirst(n / 1000, sep);
    } else {
      assert IsDigit(Dec(n)[0]);
    }
  }

  /** A text that begins with a digit, the second not being the type letter. */
  predicate Numeral(typ: char, s: string) {
    && s != "" && s[0] != '-' && s[0] != '+' && s[0] != ' '
    && (typ in {'x', 'X', 'b', 'B'} && |s| >= 2 ==> s[1] != typ)
  }

  lemma MarkPassed(typ: char, sep: char, mark: string, s: string, n: nat)
    requires IntType(typ) && Numeral(typ, s) && Denotes(typ, sep, s, n)
    requires mark == "" || (mark == "0" && typ == 'o') || (mark == ['0', typ] && typ in {'x', 'X', 'b', 'B'})
    ensures Magnitude(typ, sep, mark + s) == n
    ensures mark + s != "" && (mark + s)[0] != '-' && (mark + s)[0] != '+' && (mark + s)[0] != ' '
  {
    hide RadixValue, Val, Without;
    if mark == "" {
      assert mark + s == s;
    } else if typ == 'o' {
      OctalMark(s);
    } else {
      assert (mark + s)[..2] == mark && (mark + s)[2..] == s;
    }
  }

  lemma OctalMark(s: string)
    ensures RadixValue("0" + s, 3) == RadixValue(s, 3)
  {
    assert Repeat('0', 1) == "0";
    RadixZeros(1, s, 3);
  }

  /** The prefix is the sign and the mark. */
  lemma PrefixParts(value: int, spec: Spec) returns (mark: string)
    ensures RadixMark(mark, value, spec) && Prefix(value, spec) == SignFor(value, spec) + mark
  {
    mark := Prefix(value, spec)[|SignFor(value, spec)|..];
    hide RadixDigits, Abs;
  }

  /** For every type letter, precision, sign and '#', and any fill character not among the
      text's own: without the fill the text is sign, mark and digits; it begins with '-'
      exactly for a negative number; a reader of signs gets the number itself; and in
      hexadecimal all letters are of the case of the type letter. */
  lemma SignedReadsBack(value: int, spec: Spec, sep: char) returns (mark: string, z: nat)
    requires IntText(value, spec, sep) != [] && (spec.typ == 'n' ==> !IsDigit(sep))
    requires spec.fill != '0' && spec.fill !in Prefix(value, spec) && spec.fill !in Digits(value, spec.typ, sep)
    ensures var bare := Without(IntText(value, spec, sep)[0], spec.fill);
            && bare == SignFor(value, spec) + mark + (Repeat('0', z) + Digits(value, spec.typ, sep))
            && RadixMark(mark, value, spec)
            && bare != "" && (bare[0] == '-' <==> value < 0)
            && (bare[0] == '+' <==> value >= 0 && spec.sign && spec.plus)
            && (bare[0] == ' ' <==> value >= 0 && spec.sign && !spec.plus)
            && ReadText(spec.typ, sep, bare) == value
            && (spec.typ == 'x' ==> forall i :: 0 <= i < |bare| ==> !('A' <= bare[i] <= 'Z'))
            && (spec.typ == 'X' ==> forall i :: 0 <= i < |bare| ==> !('a' <= bare[i] <= 'z'))
  {
    z := UnfilledReadsBack(value, spec, sep);
    mark := PrefixParts(value, spec);
    TypeOfText(value, spec, sep);
    FirstDigit(value, z, spec.typ, sep);
    OneCase(value, spec, sep, mark, z);
    SignThenMark(value, spec, sep, mark, Repeat('0', z) + Digits(value, spec.typ, sep));
    hide IntText, Digits, Prefix, Denotes, RadixMark, ReadText;
  }

  lemma OneCase(value: int, spec: Spec, sep: char, mark: string, z: nat)
    requires RadixMark(mark, value, spec)
    ensures var bare := SignFor(value, spec) + mark + (Repeat('0', z) + Digits(value, spec.typ, sep));
            && (spec.typ == 'x' ==> forall i :: 0 <= i < |bare| ==> !('A' <= bare[i] <= 'Z'))
            && (spec.typ == 'X' ==> forall i :: 0 <= i < |bare| ==> !('a' <= bare[i] <= 'z'))
  {
    RadixCase(Abs(value), 4, spec.typ == 'X');
    hide RadixDigits, Dec, Grouped;
  }

  /** The type letters that integers have; any other is an error. */
  lemma TypeOfText(value: int, spec: Spec, sep: char)
    ensures IntText(value, spec, sep) != [] <==> IntType(spec.typ)
  {
    hide Layout, Dec, Grouped, RadixDigits;
  }

  lemma SignThenMark(value: int, spec: Spec, sep: char, mark: string, s: string)
    requires IntType(spec.typ) && RadixMark(mark, value, spec)
    requires Numeral(spec.typ, s) && Denotes(spec.typ, sep, s, Abs(value))
    ensures var bare := SignFor(value, spec) + mark + s;
            && bare != "" && (bare[0] == '-' <==> value < 0)
            && (bare[0] == '+' <==> value >= 0 && spec.sign && spec.plus)
            && (bare[0] == ' ' <==> value >= 0 && spec.sign && !spec.plus)
            && ReadText(spec.typ, sep, bare) == value
  {
    hide RadixDigits, Denotes, Magnitude, Numeral, ReadText;
    MarkPassed(spec.typ, sep, mark, s, Abs(value));
    Grouping(SignFor(value, spec), mark, s);
    SignPassed(SignFor(value, spec), mark + s, spec.typ, sep);
  }

  lemma Grouping(a: string, b: string, c: string)
    ensures a + b + c == a + (b + c)
  {
  }

  lemma SignPassed(sign: string, t: string, typ: char, sep: char)
    requires sign == "" || sign == "-" || sign == "+" || sign == " "
    requires t != "" && t[0] != '-' && t[0] != '+' && t[0] != ' '
    ensures sign + t != "" && (sign + t)[0] == if sign == "" then t[0] else sign[0]
    ensures ReadText(typ, sep, sign + t) == if sign == "-" then 0 - Magnitude(typ, sep, t) else Magnitude(typ, sep, t)
  {
    hide Magnitude;
    if sign == "" {
      assert sign + t == t;
    } else {
      assert (sign + t)[1..] == t;
    }
  }
}
