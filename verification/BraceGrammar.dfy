/** Which format strings there are, and what each of them asks for: format strings
    spelled from their parts, and the parser's reading of the spelling. */
module BraceGrammar {
  import opened Machine
  import opened Decimal
  import opened IntParsing
  import opened BraceParser

  /** The argument of a replacement field; a number may have leading zeros. */
  datatype Argument = Automatic | Number(digits: string) | Named(name: string)

  /** Letters, digits and underscores, no digit first. */
  predicate IsName(s: string) {
    && s != "" && !('0' <= s[0] <= '9')
    && forall k :: 0 <= k < |s| ==>
         'a' <= s[k] <= 'z' || 'A' <= s[k] <= 'Z' || s[k] == '_' || '0' <= s[k] <= '9'
  }

  predicate Writable(a: Argument) {
    match a
    case Automatic => true
    case Number(digits) => digits != "" && AllDigits(digits) && Val(digits) <= MAX_INT as nat
    case Named(name) => IsName(name)
  }

  function Spelled(a: Argument): string {
    match a
    case Automatic => ""
    case Number(digits) => digits
    case Named(name) => name
  }

  /** The argument the handler is to be told of. */
  function Reported(a: Argument): Event
    requires Writable(a)
  {
    match a
    case Automatic => NextArg
    case Number(digits) => ArgIndex(Val(digits))
    case Named(name) => ArgName(name)
  }

  /** Any text; a field with its argument; one with format specifiers after a colon. */
  datatype Piece = Literal(text: string) | Plain(arg: Argument) | Special(arg: Argument, spec: string)

  function PieceText(p: Piece): string {
    match p
    case Literal(text) => Escaped(text)
    case Plain(arg) => "{" + Spelled(arg) + "}"
    case Special(arg, spec) => "{" + Spelled(arg) + ":" + spec + "}"
  }

  /** A piece at f[at]: its number is not too big, its name is one, and the handler takes
      just its specifiers. */
  predicate Fits(p: Piece, f: string, at: nat, specs: SpecsParser): (fits: bool)
    ensures fits ==> p.Literal? || Writable(p.arg)
  {
    match p
    case Literal(_) => true
    case Plain(arg) => Writable(arg)
    case Special(arg, spec) =>
      var from := at + 2 + |Spelled(arg)|;
      Writable(arg) && specs(f, from) == SpecsEnd(from + |spec|)
  }

  /** What the handler is to be told of a piece at position `at`. */
  function PieceEvents(p: Piece, at: nat): seq<Event>
    requires p.Literal? || Writable(p.arg)
  {
    match p
    case Literal(text) => Singles(text)
    case Plain(arg) => [Reported(arg), Field(at + 1 + |Spelled(arg)|)]
    case Special(arg, spec) =>
      var from := at + 2 + |Spelled(arg)|;
      [Reported(arg), Specs(from, from + |spec|)]
  }

  function Text(ps: seq<Piece>): string {
    if ps == [] then "" else PieceText(ps[0]) + Text(ps[1..])
  }

  predicate AllFit(ps: seq<Piece>, f: string, at: nat, specs: SpecsParser)
    decreases |ps|
  {
    ps == [] || (Fits(ps[0], f, at, specs) && AllFit(ps[1..], f, at + |PieceText(ps[0])|, specs))
  }

  function EventsOf(ps: seq<Piece>, f: string, at: nat, specs: SpecsParser): seq<Event>
    requires AllFit(ps, f, at, specs)
    decreases |ps|
  {
    if ps == [] then []
    else PieceEvents(ps[0], at) + EventsOf(ps[1..], f, at + |PieceText(ps[0])|, specs)
  }

  predicate At(f: string, p: nat, s: string) {
    p + |s| <= |f| && f[p..p + |s|] == s
  }

  lemma AtParts(f: string, p: nat, s: string, t: string)
    ensures At(f, p, s + t) <==> At(f, p, s) && At(f, p + |s|, t)
  {
    if At(f, p, s + t) {
      assert f[p..p + |s|] == (s + t)[..|s|] && f[p + |s|..p + |s + t|] == (s + t)[|s|..];
    }
    if At(f, p, s) && At(f, p + |s|, t) {
      assert f[p..p + |s + t|] == f[p..p + |s|] + f[p + |s|..p + |s + t|];
    }
  }

  // ----- Reading an argument ----------------------------------------------------------------

  lemma {:induction false} NameRunIs(s: string, n: nat)
    requires n <= |s| && (forall k :: 0 <= k < n ==> IsNameStart(s[k]) || IsDigit(s[k]))
    requires n < |s| ==> !IsNameStart(s[n]) && !IsDigit(s[n])
    ensures NameRun(s) == n
  {
    if n > 0 {
      NameRunIs(s[1..], n - 1);
    }
  }

  lemma {:induction false} NameRunNames(s: string)
    ensures forall k :: 0 <= k < NameRun(s) ==> IsNameStart(s[k]) || IsDigit(s[k])
    ensures NameRun(s) < |s| ==> !IsNameStart(s[NameRun(s)]) && !IsDigit(s[NameRun(s)])
    ensures s != "" && IsNameStart(s[0]) ==> NameRun(s) > 0
  {
    if s != "" && (IsNameStart(s[0]) || IsDigit(s[0])) {
      NameRunNames(s[1..]);
      forall k | 0 <= k < NameRun(s)
        ensures IsNameStart(s[k]) || IsDigit(s[k])
      {
        if k > 0 {
          assert s[k] == s[1..][k - 1];
        }
      }
    }
  }

  /** The digits at f[p] up to something else. */
  lemma DigitsAt(f: string, p: nat, digits: string)
    requires At(f, p, digits) && AllDigits(digits)
    requires p + |digits| < |f| ==> !IsDigit(f[p + |digits|])
    ensures DigitRun(f[p..]) == |digits| && f[p..][..|digits|] == digits
    ensures digits != "" ==> f[p] == digits[0]
  {
    var rest := f[p + |digits|..];
    assert f[p..] == digits + rest;
    RunOf(digits, rest);
  }

  /** The name at f[p] up to something else. */
  lemma NameRunAt(f: string, p: nat, name: string)
    requires At(f, p, name) && IsName(name)
    requires p + |name| < |f| ==> !IsNameStart(f[p + |name|]) && !IsDigit(f[p + |name|])
    ensures NameRun(f[p..]) == |name| && f[p] == name[0] && f[p..p + |name|] == name
    ensures IsNameStart(f[p]) && !IsDigit(f[p])
  {
    var rest := f[p + |name|..];
    assert f[p..] == name + rest;
    NameRunIs(name + rest, |name|);
  }

  /** What may follow an argument. */
  predicate Ends(f: string, end: nat) {
    end < |f| && (f[end] == '}' || f[end] == ':')
  }

  /** An argument is read as itself. */
  lemma ArgIdRead(f: string, p: nat, a: Argument)
    requires Writable(a) && At(f, p, Spelled(a)) && Ends(f, p + |Spelled(a)|)
    ensures ArgId(f, p) == (Reported(a), p + |Spelled(a)|)
  {
    hide Val, DigitRun, NameRun, IsName;
    match a
    case Automatic =>
    case Number(digits) =>
      DigitsAt(f, p, digits);
    case Named(name) =>
      NameRunAt(f, p, name);
  }

  /** Whatever is read as an argument is one. */
  lemma ArgIdSpelled(f: string, p: nat) returns (a: Argument)
    requires p < |f| && !ArgId(f, p).0.Error?
    ensures Writable(a) && ArgId(f, p) == (Reported(a), p + |Spelled(a)|) && At(f, p, Spelled(a))
  {
    hide Val;
    if f[p] == '}' || f[p] == ':' {
      a := Automatic;
    } else if IsDigit(f[p]) {
      var run := DigitRun(f[p..]);
      assert run > 0;
      a := Number(f[p..][..run]);
      assert f[p..][..run] == f[p..p + run];
    } else {
      NameRunNames(f[p..]);
      var run := NameRun(f[p..]);
      var name := f[p..p + run];
      forall k | 0 <= k < run
        ensures IsNameStart(name[k]) || IsDigit(name[k])
      {
        assert name[k] == f[p..][k];
      }
      a := Named(name);
    }
  }

  // ----- Reading a piece --------------------------------------------------------------------

  lemma {:induction false} LiteralRead(f: string, at: nat, text: string, specs: SpecsParser)
    requires Forward(specs) && At(f, at, Escaped(text))
    ensures Naive(f, at, specs) == Singles(text) + Naive(f, at + |Escaped(text)|, specs)
    decreases |text|
  {
    hide Naive;
    if text == "" {
      assert Singles(text) + Naive(f, at, specs) == Naive(f, at, specs);
    } else {
      var c, rest := text[0], text[1..];
      var piece := if c == '{' || c == '}' then [c, c] else [c];
      assert Escaped(text) == piece + Escaped(rest);
      AtParts(f, at, piece, Escaped(rest));
      assert f[at..at + |piece|][0] == c;
      if |piece| == 2 {
        assert f[at..at + |piece|][1] == c;
      }
      OneEscaped(f, at, c, specs);
      LiteralRead(f, at + |piece|, rest, specs);
      assert text == [c] + rest;
      SinglesConcat([c], rest);
      Regrouped(Singles([c]), Singles(rest), Naive(f, at + |Escaped(text)|, specs), []);
    }
  }

  lemma AtChar(f: string, p: nat, c: char)
    ensures At(f, p, [c]) <==> p < |f| && f[p] == c
  {
    if p < |f| {
      assert f[p..p + 1] == [f[p]];
    }
  }

  /** A braced argument is its braces and it. */
  lemma Braced(f: string, at: nat, s: string)
    ensures At(f, at, "{" + s + "}")
       <==> at < |f| && f[at] == '{' && At(f, at + 1, s) && at + 1 + |s| < |f| && f[at + 1 + |s|] == '}'
  {
    AtParts(f, at, "{" + s, "}");
    AtParts(f, at, "{", s);
    AtChar(f, at, '{');
    AtChar(f, at + 1 + |s|, '}');
    hide At;
  }

  lemma BracedColon(f: string, at: nat, s: string, tail: string)
    ensures At(f, at, "{" + s + ":" + tail)
       <==> && at < |f| && f[at] == '{' && At(f, at + 1, s)
            && at + 1 + |s| < |f| && f[at + 1 + |s|] == ':' && At(f, at + 2 + |s|, tail)
  {
    AtParts(f, at, "{" + s + ":", tail);
    AtParts(f, at, "{" + s, ":");
    AtParts(f, at, "{", s);
    AtChar(f, at, '{');
    AtChar(f, at + 1 + |s|, ':');
    hide At;
  }

  lemma BracedSpecs(f: string, at: nat, s: string, spec: string)
    ensures At(f, at, "{" + s + ":" + spec + "}")
       <==> && at < |f| && f[at] == '{' && At(f, at + 1, s)
            && at + 1 + |s| < |f| && f[at + 1 + |s|] == ':' && At(f, at + 2 + |s|, spec)
            && at + 2 + |s| + |spec| < |f| && f[at + 2 + |s| + |spec|] == '}'
  {
    AtParts(f, at, "{" + s + ":" + spec, "}");
    BracedColon(f, at, s, spec);
    AtChar(f, at + 2 + |s| + |spec|, '}');
    hide At;
  }

  lemma NotABrace(f: string, p: nat, a: Argument)
    requires Writable(a) && a != Automatic && At(f, p, Spelled(a))
    ensures f[p] == Spelled(a)[0] && f[p] != '{' && f[p] != '}' && f[p] != ':'
  {
    assert f[p..p + |Spelled(a)|][0] == f[p];
  }

  /** An opening brace that starts a field with an argument or specifiers. */
  lemma NaiveField(f: string, at: nat, specs: SpecsParser)
    requires Forward(specs) && at + 1 < |f| && f[at] == '{' && f[at + 1] != '{' && f[at + 1] != '}'
    ensures var (events, close) := FieldAt(f, at + 1, specs);
            if Failed(events) then Naive(f, at, specs) == events
            else close < |f| && Naive(f, at, specs) == events + Naive(f, close + 1, specs)
  {
    FieldAtShape(f, at + 1, specs);
    hide FieldAt, Failed;
  }

  lemma NaiveAutomatic(f: string, at: nat, specs: SpecsParser)
    requires Forward(specs) && at + 1 < |f| && f[at] == '{' && f[at + 1] == '}'
    ensures Naive(f, at, specs) == [NextArg, Field(at + 1)] + Naive(f, at + 2, specs)
  {
  }

  lemma PlainRead(f: string, at: nat, a: Argument, specs: SpecsParser)
    requires Forward(specs) && Writable(a) && At(f, at, "{" + Spelled(a) + "}")
    ensures Naive(f, at, specs)
         == [Reported(a), Field(at + 1 + |Spelled(a)|)] + Naive(f, at + 2 + |Spelled(a)|, specs)
  {
    hide Naive, ArgId;
    Braced(f, at, Spelled(a));
    if a == Automatic {
      NaiveAutomatic(f, at, specs);
    } else {
      NotABrace(f, at + 1, a);
      ArgIdRead(f, at + 1, a);
      NaiveField(f, at, specs);
    }
  }

  lemma SpecialRead(f: string, at: nat, a: Argument, spec: string, specs: SpecsParser)
    requires Forward(specs) && Fits(Special(a, spec), f, at, specs)
    requires At(f, at, "{" + Spelled(a) + ":" + spec + "}")
    ensures Naive(f, at, specs)
         == PieceEvents(Special(a, spec), at) + Naive(f, at + 3 + |Spelled(a)| + |spec|, specs)
  {
    hide Naive, ArgId;
    BracedSpecs(f, at, Spelled(a), spec);
    if a != Automatic {
      NotABrace(f, at + 1, a);
    }
    ArgIdRead(f, at + 1, a);
    NaiveField(f, at, specs);
  }

  lemma PieceRead(f: string, at: nat, p: Piece, specs: SpecsParser)
    requires Forward(specs) && Fits(p, f, at, specs) && At(f, at, PieceText(p))
    ensures Naive(f, at, specs) == PieceEvents(p, at) + Naive(f, at + |PieceText(p)|, specs)
  {
    hide Naive, PieceEvents, Fits, At, Forward;
    PieceParts(p, f, at, specs);
    match p
    case Literal(text) => LiteralRead(f, at, text, specs);
    case Plain(a) => PlainRead(f, at, a, specs);
    case Special(a, spec) => SpecialRead(f, at, a, spec, specs);
  }

  lemma PieceParts(p: Piece, f: string, at: nat, specs: SpecsParser)
    requires Fits(p, f, at, specs)
    ensures match p
            case Literal(text) => PieceText(p) == Escaped(text) && PieceEvents(p, at) == Singles(text)
            case Plain(a) =>
              && Writable(a) && |PieceText(p)| == 2 + |Spelled(a)|
              && PieceEvents(p, at) == [Reported(a), Field(at + 1 + |Spelled(a)|)]
            case Special(a, spec) => |PieceText(p)| == 3 + |Spelled(a)| + |spec|
  {
    hide Spelled, Reported, Writable;
  }

  /** Pieces, spelled one after the other up to the end, are read as those pieces. */
  lemma {:induction false} PiecesRead(f: string, at: nat, ps: seq<Piece>, specs: SpecsParser)
    requires Forward(specs) && at <= |f| && f[at..] == Text(ps) && AllFit(ps, f, at, specs)
    ensures Naive(f, at, specs) == EventsOf(ps, f, at, specs)
    decreases |ps|
  {
    hide Naive, Fits, PieceEvents, PieceText;
    if ps == [] {
      NaiveEnd(f, specs);
    } else {
      var t := PieceText(ps[0]);
      assert f[at..] == t + Text(ps[1..]);
      assert f[at..at + |t|] == f[at..][..|t|] && f[at + |t|..] == f[at..][|t|..];
      PieceRead(f, at, ps[0], specs);
      PiecesRead(f, at + |t|, ps[1..], specs);
    }
  }

  lemma NaiveEnd(f: string, specs: SpecsParser)
    requires Forward(specs)
    ensures Naive(f, |f|, specs) == []
  {
  }

  // ----- Every format string that is read without an error ----------------------------------

  predicate NoError(events: seq<Event>) {
    forall k :: 0 <= k < |events| ==> !events[k].Error?
  }

  lemma NoErrorConcat(a: seq<Event>, b: seq<Event>)
    ensures NoError(a + b) <==> NoError(a) && NoError(b)
  {
    assert forall k :: 0 <= k < |a| ==> a[k] == (a + b)[k];
    assert forall k :: 0 <= k < |b| ==> b[k] == (a + b)[|a| + k];
  }

  lemma FitsWithoutError(p: Piece, f: string, at: nat, specs: SpecsParser)
    requires Fits(p, f, at, specs)
    ensures NoError(PieceEvents(p, at))
  {
  }

  /** The first piece of what is read without an error. */
  lemma FirstPiece(f: string, at: nat, specs: SpecsParser) returns (p: Piece)
    requires Forward(specs) && at < |f| && NoError(Naive(f, at, specs))
    ensures Fits(p, f, at, specs) && At(f, at, PieceText(p)) && PieceText(p) != ""
  {
    if f[at] == '{' && at + 1 < |f| && f[at + 1] == '}' {
      p := Plain(Automatic);
      assert f[at..at + 2] == "{}";
    } else if f[at] == '{' && at + 1 < |f| && f[at + 1] != '{' {
      p := FirstField(f, at, specs);
    } else {
      p := Literal([f[at]]);
      FirstCharacter(f, at, specs);
    }
  }

  lemma FirstCharacter(f: string, at: nat, specs: SpecsParser)
    requires Forward(specs) && at < |f| && NoError(Naive(f, at, specs))
    requires f[at] == '{' ==> at + 1 == |f| || f[at + 1] == '{'
    ensures At(f, at, Escaped([f[at]]))
  {
    var c := f[at];
    EscapedCons(c, "");
    assert [c] + "" == [c] && Escaped("") == "";
    if c == '{' || c == '}' {
      if at + 1 == |f| || f[at + 1] != c {
        assert Naive(f, at, specs)[0].Error?;
      }
      assert f[at..at + 2] == [c, c] + "";
    } else {
      assert f[at..at + 1] == [c] + "";
    }
  }

  /** A field at f[p] that does not fail is an argument, and specifiers or none, and a brace. */
  lemma FieldAtSpelled(f: string, p: nat, specs: SpecsParser) returns (a: Argument)
    requires Forward(specs) && p < |f| && !Failed(FieldAt(f, p, specs).0)
    ensures Writable(a) && At(f, p, Spelled(a))
    ensures var end, close := p + |Spelled(a)|, FieldAt(f, p, specs).1;
            && end <= close < |f| && f[close] == '}'
            && (close != end ==> f[end] == ':' && specs(f, end + 1) == SpecsEnd(close))
  {
    hide ArgId, Writable, Spelled, At;
    a := ArgIdSpelled(f, p);
  }

  lemma FieldFine(f: string, at: nat, specs: SpecsParser)
    requires Forward(specs) && at + 1 < |f| && f[at] == '{' && f[at + 1] != '{' && f[at + 1] != '}'
    requires NoError(Naive(f, at, specs))
    ensures !Failed(FieldAt(f, at + 1, specs).0)
  {
    NaiveField(f, at, specs);
    hide Naive, FieldAt;
  }

  lemma PlainFits(f: string, at: nat, a: Argument, specs: SpecsParser)
    requires at < |f| && f[at] == '{' && Writable(a) && At(f, at + 1, Spelled(a))
    requires at + 1 + |Spelled(a)| < |f| && f[at + 1 + |Spelled(a)|] == '}'
    ensures Fits(Plain(a), f, at, specs) && At(f, at, PieceText(Plain(a))) && PieceText(Plain(a)) != ""
  {
    hide Writable, At;
    Braced(f, at, Spelled(a));
  }

  lemma SpecialFits(f: string, at: nat, a: Argument, close: nat, specs: SpecsParser)
    requires at < |f| && f[at] == '{' && Writable(a) && At(f, at + 1, Spelled(a))
    requires var colon := at + 1 + |Spelled(a)|;
             && colon < close < |f| && f[colon] == ':' && f[close] == '}' && specs(f, colon + 1) == SpecsEnd(close)
    ensures var p := Special(a, f[at + 2 + |Spelled(a)|..close]);
            Fits(p, f, at, specs) && At(f, at, PieceText(p)) && PieceText(p) != ""
  {
    hide Writable, At, Spelled;
    var from := at + 2 + |Spelled(a)|;
    AtSlice(f, from, close);
    BracedSpecs(f, at, Spelled(a), f[from..close]);
  }

  lemma FirstField(f: string, at: nat, specs: SpecsParser) returns (p: Piece)
    requires Forward(specs) && at + 1 < |f| && f[at] == '{' && f[at + 1] != '{' && f[at + 1] != '}'
    requires NoError(Naive(f, at, specs))
    ensures Fits(p, f, at, specs) && At(f, at, PieceText(p)) && PieceText(p) != ""
  {
    hide *;
    FieldFine(f, at, specs);
    var a := FieldAtSpelled(f, at + 1, specs);
    var end, close := at + 1 + |Spelled(a)|, FieldAt(f, at + 1, specs).1;
    if close == end {
      p := Plain(a);
      PlainFits(f, at, a, specs);
    } else {
      p := Special(a, f[end + 1..close]);
      SpecialFits(f, at, a, close, specs);
    }
  }

  lemma AtSlice(f: string, p: nat, q: nat)
    requires p <= q <= |f|
    ensures At(f, p, f[p..q])
  {
  }

  lemma {:induction false} PiecesOf(f: string, at: nat, specs: SpecsParser) returns (ps: seq<Piece>)
    requires Forward(specs) && at <= |f| && NoError(Naive(f, at, specs))
    ensures f[at..] == Text(ps) && AllFit(ps, f, at, specs)
    decreases |f| - at
  {
    hide Naive, Fits, PieceEvents, PieceText;
    if at == |f| {
      ps := [];
    } else {
      var p := FirstPiece(f, at, specs);
      var t := PieceText(p);
      PieceRead(f, at, p, specs);
      NoErrorConcat(PieceEvents(p, at), Naive(f, at + |t|, specs));
      var rest := PiecesOf(f, at + |t|, specs);
      ps := [p] + rest;
      assert ps[1..] == rest;
      assert f[at..] == f[at..at + |t|] + f[at + |t|..];
    }
  }

  lemma {:induction false} PiecesWithoutError(ps: seq<Piece>, f: string, at: nat, specs: SpecsParser)
    requires AllFit(ps, f, at, specs)
    ensures NoError(EventsOf(ps, f, at, specs))
    decreases |ps|
  {
    hide Fits, PieceEvents, PieceText;
    if ps != [] {
      FitsWithoutError(ps[0], f, at, specs);
      PiecesWithoutError(ps[1..], f, at + |PieceText(ps[0])|, specs);
      NoErrorConcat(PieceEvents(ps[0], at), EventsOf(ps[1..], f, at + |PieceText(ps[0])|, specs));
    }
  }

  /** The format strings read without an error are those spelled from pieces that fit, and
      each is read as its pieces. */
  lemma FormatGrammar(f: string, specs: SpecsParser)
    requires Forward(specs)
    ensures NoError(Naive(f, 0, specs)) <==> exists ps :: f == Text(ps) && AllFit(ps, f, 0, specs)
    ensures forall ps :: f == Text(ps) && AllFit(ps, f, 0, specs) ==> Naive(f, 0, specs) == EventsOf(ps, f, 0, specs)
  {
    hide Naive, Text, AllFit, EventsOf, NoError;
    assert f[0..] == f;
    forall ps | f == Text(ps) && AllFit(ps, f, 0, specs)
      ensures Naive(f, 0, specs) == EventsOf(ps, f, 0, specs) && NoError(Naive(f, 0, specs))
    {
      PiecesRead(f, 0, ps, specs);
      PiecesWithoutError(ps, f, 0, specs);
    }
    if NoError(Naive(f, 0, specs)) {
      var ps := PiecesOf(f, 0, specs);
    }
  }

  // ----- What the parser reports ------------------------------------------------------------

  lemma {:induction false} ExplodedErrors(events: seq<Event>)
    ensures NoError(Exploded(events)) <==> NoError(events)
  {
    if events != [] {
      var head := if events[0].Text? then Singles(events[0].text) else [events[0]];
      ExplodedErrors(events[1..]);
      NoErrorConcat(head, Exploded(events[1..]));
      assert events == [events[0]] + events[1..];
      NoErrorConcat([events[0]], events[1..]);
    }
  }

  /** The parser reports an error exactly for the other strings; for these it reports the
      pieces they are spelled from, text in chunks of its own choice. */
  lemma ReportsPieces(f: string, events: seq<Event>, specs: SpecsParser)
    requires Forward(specs) && Agrees(events, Naive(f, 0, specs))
    ensures NoError(events) <==> exists ps :: f == Text(ps) && AllFit(ps, f, 0, specs)
    ensures forall ps :: f == Text(ps) && AllFit(ps, f, 0, specs) ==> Exploded(events) == EventsOf(ps, f, 0, specs)
  {
    var naive := Naive(f, 0, specs);
    FormatGrammar(f, specs);
    hide Naive, Text, AllFit, EventsOf, Exploded;
    ExplodedErrors(events);
    if naive != Exploded(events) {
      assert events[|events| - 1].Error? && naive[|naive| - 1] == events[|events| - 1];
    }
  }

  /** What may stand alone in a field, and what is to be reported of it. */
  ghost predicate Names(arg: string, id: Event) {
    || (arg == "" && id == NextArg)
    || (IsName(arg) && id == ArgName(arg))
    || exists n: nat :: n <= MAX_INT as nat && arg == Dec(n) && id == ArgIndex(n)
  }

  lemma NamedArgument(arg: string, id: Event) returns (a: Argument)
    requires Names(arg, id)
    ensures Writable(a) && Spelled(a) == arg && Reported(a) == id
  {
    if arg == "" {
      a := Automatic;
    } else if IsName(arg) && id == ArgName(arg) {
      a := Named(arg);
    } else {
      a := Number(arg);
      var n: nat :| n <= MAX_INT as nat && arg == Dec(n) && id == ArgIndex(n);
      hide Val;
      ValDec(n);
    }
  }

  /** A single field, automatic, named or numbered, is reported as such and where it ends. */
  lemma OneField(arg: string, id: Event, events: seq<Event>, specs: SpecsParser)
    requires Names(arg, id) && Forward(specs) && Agrees(events, Naive("{" + arg + "}", 0, specs))
    ensures Exploded(events) == [id, Field(1 + |arg|)]
  {
    var f := "{" + arg + "}";
    hide Names, Naive, Agrees, Exploded, Text, AllFit, EventsOf;
    var a := NamedArgument(arg, id);
    hide Writable, Spelled, Reported;
    OnePiece(f, Plain(a), specs);
    ReportsPieces(f, events, specs);
  }

  lemma OnePiece(f: string, p: Piece, specs: SpecsParser)
    requires f == PieceText(p) && Fits(p, f, 0, specs)
    ensures f == Text([p]) && AllFit([p], f, 0, specs) && EventsOf([p], f, 0, specs) == PieceEvents(p, 0)
  {
    hide PieceText, Fits, PieceEvents;
    assert [p][1..] == [];
    assert AllFit([], f, |f|, specs) && EventsOf([], f, |f|, specs) == [];
    assert Text([]) == "" && PieceText(p) + "" == PieceText(p);
    assert PieceEvents(p, 0) + [] == PieceEvents(p, 0);
  }

  // ----- Fields that are wrong ----------------------------------------------------------------

  /** A number, as far as its digits go, in a field: too big, or not followed by what may
      follow it. */
  lemma WrongNumber(f: string, at: nat, digits: string, specs: SpecsParser)
    requires Forward(specs) && at < |f| && f[at] == '{' && At(f, at + 1, digits)
    requires digits != "" && AllDigits(digits)
    requires var end := at + 1 + |digits|; end < |f| ==> !IsDigit(f[end])
    ensures Val(digits) > MAX_INT as nat ==> Naive(f, at, specs) == [Error(TOO_BIG)]
    ensures Val(digits) <= MAX_INT as nat && !Ends(f, at + 1 + |digits|) ==> Naive(f, at, specs) == [Error(INVALID)]
  {
    hide Val, DigitRun, Naive;
    DigitsAt(f, at + 1, digits);
    NaiveField(f, at, specs);
  }

  /** Nothing that could be an argument after the opening brace. */
  lemma WrongStart(f: string, at: nat, specs: SpecsParser)
    requires Forward(specs) && at < |f| && f[at] == '{'
    requires at + 1 < |f| ==> var c := f[at + 1]; !IsNameStart(c) && !IsDigit(c) && c != '{' && c != '}' && c != ':'
    ensures Naive(f, at, specs) == [Error(INVALID)]
  {
    if at + 1 < |f| {
      NaiveField(f, at, specs);
      hide Naive;
    }
  }

  /** A name, as far as it goes, not followed by what may follow it. */
  lemma WrongAfterName(f: string, at: nat, name: string, specs: SpecsParser)
    requires Forward(specs) && at < |f| && f[at] == '{' && At(f, at + 1, name) && IsName(name)
    requires var end := at + 1 + |name|;
             !Ends(f, end) && (end < |f| ==> !IsNameStart(f[end]) && !IsDigit(f[end]))
    ensures Naive(f, at, specs) == [ArgName(name), Error(MISSING)]
  {
    NameRunAt(f, at + 1, name);
    NaiveField(f, at, specs);
    hide Naive, NameRun;
  }

  /** Specifiers that the handler rejects, or that do not end at the closing brace. */
  lemma WrongSpecs(f: string, at: nat, a: Argument, specs: SpecsParser)
    requires Forward(specs) && Writable(a) && At(f, at, "{" + Spelled(a) + ":")
    ensures var from := at + 2 + |Spelled(a)|;
            match specs(f, from)
            case SpecsError(message) => Naive(f, at, specs) == [Reported(a), Error(message)]
            case SpecsEnd(to) =>
              (to < |f| && f[to] == '}')
              || Naive(f, at, specs) == [Reported(a), Specs(from, to), Error(UNKNOWN)]
  {
    hide ArgId, Naive;
    BracedColon(f, at, Spelled(a), "");
    assert "{" + Spelled(a) + ":" + "" == "{" + Spelled(a) + ":";
    if a != Automatic {
      NotABrace(f, at + 1, a);
    }
    ArgIdRead(f, at + 1, a);
    NaiveField(f, at, specs);
  }
}
