/** The parser of format strings such as "{}, {0:>8} and {name}". */
module BraceParser {
  import opened Machine
  import opened Decimal
  import opened IntParsing

  const UNMATCHED := "unmatched '}' in format string"
  const INVALID := "invalid format string"
  const MISSING := "missing '}' in format string"
  const UNKNOWN := "unknown format specifier"
  const TOO_BIG := "number is too big"

  /** What the handler is told. Field and Specs carry positions in the format string;
      an error is the last event. */
  datatype Event =
    | Text(text: string)
    | NextArg
    | ArgIndex(index: nat)
    | ArgName(name: string)
    | Field(at: nat)
    | Specs(from: nat, to: nat)
    | Error(message: string)

  /** How the handler takes the format specifiers from a position on: it stops at a
      later position, or reports an error. */
  datatype SpecsResult = SpecsEnd(to: nat) | SpecsError(message: string)
  type SpecsParser = (string, nat) -> SpecsResult

  ghost predicate Forward(specs: SpecsParser) {
    forall f, from :: 0 <= from <= |f| && specs(f, from).SpecsEnd? ==> from <= specs(f, from).to <= |f|
  }

  // ----- The meaning of a format string, one character at a time --------------------------

  predicate IsNameStart(c: char) {
    'a' <= c <= 'z' || 'A' <= c <= 'Z' || c == '_'
  }

  /** The length of the name at the start of s, its first character given. */
  function NameRun(s: string): (n: nat)
    ensures n <= |s|
  {
    if s != "" && (IsNameStart(s[0]) || IsDigit(s[0])) then 1 + NameRun(s[1..]) else 0
  }

  /** The argument of a replacement field starting at f[p], and where it ends. */
  function ArgId(f: string, p: nat): (r: (Event, nat))
    requires p < |f|
    ensures p <= r.1 <= |f|
  {
    if f[p] == '}' || f[p] == ':' then (NextArg, p)
    else if IsDigit(f[p]) then
      var end := p + DigitRun(f[p..]);
      if Val(f[p..][..end - p]) > MAX_INT as nat then (Error(TOO_BIG), p)
      else if end == |f| || (f[end] != '}' && f[end] != ':') then (Error(INVALID), end)
      else (ArgIndex(Val(f[p..][..end - p])), end)
    else if !IsNameStart(f[p]) then (Error(INVALID), p)
    else
      var end := p + NameRun(f[p..]);
      (ArgName(f[p..end]), end)
  }

  /** A replacement field whose argument, starting at f[p], is given explicitly or followed by
      specifiers: what is reported, and where its closing brace is. */
  function FieldAt(f: string, p: nat, specs: SpecsParser): (r: (seq<Event>, nat))
    requires p < |f|
  {
    var (id, end) := ArgId(f, p);
    if id.Error? then ([id], end)
    else if end < |f| && f[end] == '}' then ([id, Field(end)], end)
    else if end < |f| && f[end] == ':' then
      match specs(f, end + 1)
      case SpecsError(message) => ([id, Error(message)], end)
      case SpecsEnd(to) =>
        if to < |f| && f[to] == '}' then ([id, Specs(end + 1, to)], to)
        else ([id, Specs(end + 1, to), Error(UNKNOWN)], to)
    else ([id, Error(MISSING)], end)
  }

  predicate Failed(events: seq<Event>) {
    events != [] && events[|events| - 1].Error?
  }

  /** Reading f from position i: one event for each character of text. */
  ghost function Naive(f: string, i: nat, specs: SpecsParser): seq<Event>
    requires i <= |f| && Forward(specs)
    decreases |f| - i
  {
    if i == |f| then []
    else if f[i] == '}' then
      if i + 1 < |f| && f[i + 1] == '}' then [Text("}")] + Naive(f, i + 2, specs) else [Error(UNMATCHED)]
    else if f[i] != '{' then [Text([f[i]])] + Naive(f, i + 1, specs)
    else if i + 1 == |f| then [Error(INVALID)]
    else if f[i + 1] == '}' then [NextArg, Field(i + 1)] + Naive(f, i + 2, specs)
    else if f[i + 1] == '{' then [Text("{")] + Naive(f, i + 2, specs)
    else
      var (events, close) := FieldAt(f, i + 1, specs);
      if Failed(events) then events else events + Naive(f, close + 1, specs)
  }

  // ----- Chunks of text -------------------------------------------------------------------

  function Singles(text: string): (r: seq<Event>)
    ensures |r| == |text|
  {
    seq(|text|, i requires 0 <= i < |text| => Text([text[i]]))
  }

  /** Every chunk of text cut into single characters; empty chunks vanish. */
  function Exploded(events: seq<Event>): seq<Event> {
    if events == [] then []
    else (if events[0].Text? then Singles(events[0].text) else [events[0]]) + Exploded(events[1..])
  }

  lemma {:induction false} ExplodedConcat(a: seq<Event>, b: seq<Event>)
    ensures Exploded(a + b) == Exploded(a) + Exploded(b)
  {
    if a == [] {
      assert a + b == b;
    } else {
      ExplodedConcat(a[1..], b);
      ExplodedCons(a[0], a[1..] + b);
      ExplodedCons(a[0], a[1..]);
      hide Exploded;
      assert a == [a[0]] + a[1..];
      Regrouped([a[0]], a[1..], b, []);
      var first := if a[0].Text? then Singles(a[0].text) else [a[0]];
      hide Singles;
      Regrouped(first, Exploded(a[1..]), Exploded(b), []);
    }
  }

  lemma ExplodedCons(e: Event, events: seq<Event>)
    ensures Exploded([e] + events) == (if e.Text? then Singles(e.text) else [e]) + Exploded(events)
  {
    assert ([e] + events)[1..] == events;
  }

  lemma ExplodedOne(e: Event)
    ensures Exploded([e]) == if e.Text? then Singles(e.text) else [e]
  {
    assert [e][1..] == [];
    if e.Text? {
      assert Singles(e.text) + [] == Singles(e.text);
    }
  }

  /** What the parser reports agrees with reading one character at a time: the same
      events but for the size of text chunks, and text just before an error may be lost. */
  ghost predicate Agrees(events: seq<Event>, naive: seq<Event>) {
    naive == Exploded(events) || (Failed(events) && exists lost :: LostBeforeError(events, naive, lost))
  }

  ghost predicate LostBeforeError(events: seq<Event>, naive: seq<Event>, lost: string)
    requires events != []
  {
    var last := |events| - 1;
    naive == Exploded(events[..last]) + Singles(lost) + [events[last]]
  }

  lemma AgreesAfter(before: seq<Event>, events: seq<Event>, naive: seq<Event>)
    requires Agrees(events, naive)
    ensures Agrees(before + events, Exploded(before) + naive)
  {
    ExplodedConcat(before, events);
    if naive != Exploded(events) {
      var lost :| LostBeforeError(events, naive, lost);
      var last := |events| - 1;
      var all := before + events;
      ExplodedConcat(before, events[..last]);
      assert all[..|all| - 1] == before + events[..last] && all[|all| - 1] == events[last];
      Regrouped(Exploded(before), Exploded(events[..last]), Singles(lost), [events[last]]);
      assert LostBeforeError(all, Exploded(before) + naive, lost);
    }
  }

  lemma Regrouped<T>(a: seq<T>, b: seq<T>, c: seq<T>, d: seq<T>)
    ensures a + (b + c + d) == (a + b) + c + d
    ensures (a + b) + c == a + (b + c)
  {
  }

  // ----- Steps of the reading -------------------------------------------------------------

  lemma NaiveChar(f: string, i: nat, specs: SpecsParser)
    requires i < |f| && Forward(specs) && f[i] != '{' && f[i] != '}'
    ensures Naive(f, i, specs) == [Text([f[i]])] + Naive(f, i + 1, specs)
  {
  }

  /** Text without braces means itself. */
  lemma {:induction false} NaivePlain(f: string, i: nat, j: nat, specs: SpecsParser)
    requires i <= j <= |f| && Forward(specs)
    requires forall k :: i <= k < j ==> f[k] != '{' && f[k] != '}'
    ensures Naive(f, i, specs) == Singles(f[i..j]) + Naive(f, j, specs)
    decreases j - i
  {
    hide Naive;
    if i == j {
      assert Singles(f[i..j]) + Naive(f, j, specs) == Naive(f, i, specs);
    } else {
      NaiveChar(f, i, specs);
      NaivePlain(f, i + 1, j, specs);
      assert f[i..j] == [f[i]] + f[i + 1..j];
      SinglesConcat([f[i]], f[i + 1..j]);
      Regrouped([Text([f[i]])], Singles(f[i + 1..j]), Naive(f, j, specs), []);
    }
  }

  lemma SinglesConcat(s: string, t: string)
    ensures Singles(s + t) == Singles(s) + Singles(t)
    ensures |s| == 1 ==> Singles(s) == [Text(s)]
  {
    if |s| == 1 {
      assert [s[0]] == s;
    }
  }

  /** The events report what f means from i to j. */
  ghost predicate Reads(f: string, i: nat, events: seq<Event>, j: nat, specs: SpecsParser)
    requires i <= |f| && j <= |f| && Forward(specs)
  {
    !Failed(events) && Naive(f, i, specs) == Exploded(events) + Naive(f, j, specs)
  }

  lemma ReadsNone(f: string, i: nat, specs: SpecsParser)
    requires i <= |f| && Forward(specs)
    ensures Reads(f, i, [], i, specs)
  {
    assert Exploded([]) == [];
    assert [] + Naive(f, i, specs) == Naive(f, i, specs);
  }

  lemma ReadsThen(f: string, i: nat, a: seq<Event>, j: nat, b: seq<Event>, k: nat, specs: SpecsParser)
    requires i <= |f| && j <= |f| && k <= |f| && Forward(specs)
    requires Reads(f, i, a, j, specs) && Reads(f, j, b, k, specs)
    ensures Reads(f, i, a + b, k, specs)
  {
    hide Naive;
    ExplodedConcat(a, b);
    hide Exploded;
    Regrouped(Exploded(a), Exploded(b), Naive(f, k, specs), []);
  }

  lemma ReadsError(f: string, i: nat, a: seq<Event>, j: nat, b: seq<Event>, specs: SpecsParser)
    requires i <= |f| && j <= |f| && Forward(specs)
    requires Reads(f, i, a, j, specs) && Agrees(b, Naive(f, j, specs))
    ensures Agrees(a + b, Naive(f, i, specs))
  {
    hide Naive;
    hide Agrees;
    AgreesAfter(a, b, Naive(f, j, specs));
  }

  lemma ReadsPlain(f: string, i: nat, j: nat, specs: SpecsParser)
    requires i <= j <= |f| && Forward(specs)
    requires forall k :: i <= k < j ==> f[k] != '{' && f[k] != '}'
    ensures Reads(f, i, [Text(f[i..j])], j, specs)
  {
    NaivePlain(f, i, j, specs);
    ReadsOneText(f, i, f[i..j], j, specs);
  }

  /** A doubled closing brace ends a chunk that includes it once. */
  lemma ReadsDoubled(f: string, from: nat, p: nat, specs: SpecsParser)
    requires from <= p && p + 1 < |f| && f[p] == '}' == f[p + 1] && Forward(specs)
    requires forall k :: from <= k < p ==> f[k] != '{' && f[k] != '}'
    ensures Reads(f, from, [Text(f[from..p + 1])], p + 2, specs)
  {
    hide *;
    NaivePlain(f, from, p, specs);
    ClosingPair(f, p, specs);
    SinglesSnoc(f, from, p);
    Regrouped(Singles(f[from..p]), [Text("}")], Naive(f, p + 2, specs), []);
    ReadsOneText(f, from, f[from..p + 1], p + 2, specs);
  }

  lemma SinglesSnoc(f: string, from: nat, p: nat)
    requires from <= p < |f| && f[p] == '}'
    ensures Singles(f[from..p + 1]) == Singles(f[from..p]) + [Text("}")]
  {
    assert f[from..p + 1] == f[from..p] + "}";
    assert Singles("}") == [Text("}")];
    SinglesConcat(f[from..p], "}");
  }

  lemma ReadsOneText(f: string, i: nat, text: string, j: nat, specs: SpecsParser)
    requires i <= |f| && j <= |f| && Forward(specs)
    requires Naive(f, i, specs) == Singles(text) + Naive(f, j, specs)
    ensures Reads(f, i, [Text(text)], j, specs)
  {
    hide Naive;
    ExplodedOne(Text(text));
  }

  lemma ClosingPair(f: string, p: nat, specs: SpecsParser)
    requires p + 1 < |f| && f[p] == '}' == f[p + 1] && Forward(specs)
    ensures Naive(f, p, specs) == [Text("}")] + Naive(f, p + 2, specs)
  {
  }

  lemma AgreesUnmatched(f: string, from: nat, p: nat, specs: SpecsParser)
    requires from <= p < |f| && f[p] == '}' && Forward(specs) && (p + 1 == |f| || f[p + 1] != '}')
    requires forall k :: from <= k < p ==> f[k] != '{' && f[k] != '}'
    ensures Agrees([Error(UNMATCHED)], Naive(f, from, specs))
  {
    NaivePlain(f, from, p, specs);
    assert Naive(f, p, specs) == [Error(UNMATCHED)];
    hide Naive;
    assert [Error(UNMATCHED)][..0] == [] && Exploded([]) == [];
    assert [] + Singles(f[from..p]) == Singles(f[from..p]);
    assert LostBeforeError([Error(UNMATCHED)], Naive(f, from, specs), f[from..p]);
  }

  predicate NoText(events: seq<Event>) {
    forall i :: 0 <= i < |events| ==> !events[i].Text?
  }

  lemma FieldAtShape(f: string, p: nat, specs: SpecsParser)
    requires p < |f| && Forward(specs)
    ensures NoText(FieldAt(f, p, specs).0)
    ensures !Failed(FieldAt(f, p, specs).0) ==> p <= FieldAt(f, p, specs).1 < |f|
  {
    ArgIdNoText(f, p);
    hide ArgId;
  }

  lemma ArgIdNoText(f: string, p: nat)
    requires p < |f|
    ensures !ArgId(f, p).0.Text?
  {
    hide Val;
    hide DigitRun;
    hide NameRun;
  }

  /** An opening brace that starts a replacement field with an argument or specifiers. */
  lemma OpensField(f: string, p: nat, specs: SpecsParser)
    requires p + 1 < |f| && f[p] == '{' && f[p + 1] != '}' && f[p + 1] != '{' && Forward(specs)
    ensures var (events, close) := FieldAt(f, p + 1, specs);
            if Failed(events) then Agrees(events, Naive(f, p, specs))
            else close < |f| && Reads(f, p, events, close + 1, specs)
  {
    FieldAtShape(f, p + 1, specs);
    hide FieldAt;
    NoTextExploded(FieldAt(f, p + 1, specs).0);
    hide Exploded;
    hide NoText;
  }

  lemma OpensAutomatic(f: string, p: nat, specs: SpecsParser)
    requires p + 1 < |f| && f[p] == '{' && f[p + 1] == '}' && Forward(specs)
    ensures Reads(f, p, [NextArg, Field(p + 1)], p + 2, specs)
  {
    NoTextExploded([NextArg, Field(p + 1)]);
    hide Exploded;
  }

  lemma OpensText(f: string, p: nat, specs: SpecsParser)
    requires p + 1 < |f| && f[p] == '{' && f[p + 1] == '{' && Forward(specs)
    ensures Reads(f, p, [Text("{")], p + 2, specs)
  {
    ExplodedOne(Text("{"));
    SinglesConcat("{", "");
    hide Exploded;
    hide Singles;
  }

  lemma OpensNothing(f: string, p: nat, specs: SpecsParser)
    requires p + 1 == |f| && f[p] == '{' && Forward(specs)
    ensures Agrees([Error(INVALID)], Naive(f, p, specs))
  {
    NoTextExploded([Error(INVALID)]);
    hide Exploded;
  }

  lemma {:induction false} NoTextExploded(events: seq<Event>)
    requires NoText(events)
    ensures Exploded(events) == events
  {
    if events != [] {
      NoTextExploded(events[1..]);
      assert [events[0]] + events[1..] == events;
    }
  }

  // ----- The parser: two scans, one for each brace ------------------------------------------

  method Find(f: string, first: nat, last: nat, c: char) returns (found: bool, out: nat)
    requires first <= last <= |f|
    ensures found ==> first <= out < last && f[out] == c
    ensures forall k :: first <= k < (if found then out else last) ==> f[k] != c
  {
    out := first;
    while out != last
      invariant first <= out <= last
      invariant forall k :: first <= k < out ==> f[k] != c
    {
      if f[out] == c {
        return true, out;
      }
      out := out + 1;
    }
    found := false;
  }

  /** Reports the text f[begin..end], which has no opening brace; ok is false when it
      ends in an error. */
  method Write(f: string, begin: nat, end: nat, ghost specs: SpecsParser)
    returns (events: seq<Event>, ok: bool)
    requires begin <= end <= |f| && Forward(specs)
    requires forall k :: begin <= k < end ==> f[k] != '{'
    requires end == |f| || f[end] == '{'
    ensures ok ==> Reads(f, begin, events, end, specs)
    ensures !ok ==> Agrees(events, Naive(f, begin, specs))
  {
    hide *;
    events := [];
    ReadsNone(f, begin, specs);
    if begin == end {
      return [], true;
    }
    var from := begin;
    while true
      invariant begin <= from <= end
      invariant Reads(f, begin, events, from, specs)
      decreases end - from
    {
      var found, p := Find(f, from, end, '}');
      if !found {
        ReadsPlain(f, from, end, specs);
        ReadsThen(f, begin, events, from, [Text(f[from..end])], end, specs);
        return events + [Text(f[from..end])], true;
      }
      p := p + 1;
      if p == end || f[p] != '}' {
        AgreesUnmatched(f, from, p - 1, specs);
        ReadsError(f, begin, events, from, [Error(UNMATCHED)], specs);
        return events + [Error(UNMATCHED)], false;
      }
      ReadsDoubled(f, from, p - 1, specs);
      ReadsThen(f, begin, events, from, [Text(f[from..p])], p + 1, specs);
      events := events + [Text(f[from..p])];
      from := p + 1;
    }
  }

  /** Reads the argument of a replacement field at f[begin]. */
  method ParseArgId(f: string, begin: nat) returns (id: Event, next: nat)
    requires begin < |f|
    ensures (id, next) == ArgId(f, begin)
  {
    var c := f[begin];
    if c == '}' || c == ':' {
      return NextArg, begin;
    }
    if IsDigit(c) {
      var index, end, tooBig := ParseNonnegativeInt(f, begin);
      if tooBig {
        return Error(TOO_BIG), begin;
      }
      if end == |f| || (f[end] != '}' && f[end] != ':') {
        return Error(INVALID), end;
      }
      return ArgIndex(index as nat), end;
    }
    if !IsNameStart(c) {
      return Error(INVALID), begin;
    }
    ghost var rest := f[begin..];
    var it := begin + 1;
    assert rest[1..] == f[it..];
    while it != |f| && (IsNameStart(f[it]) || IsDigit(f[it]))
      invariant begin < it <= |f|
      invariant NameRun(rest) == it - begin + NameRun(f[it..])
    {
      assert f[it..][1..] == f[it + 1..];
      it := it + 1;
    }
    return ArgName(f[begin..it]), it;
  }

  /** What follows an opening brace; ok is false when it ends in an error. */
  method ReplacementField(f: string, begin: nat, specs: SpecsParser) returns (events: seq<Event>, next: nat, ok: bool)
    requires 0 < begin <= |f| && f[begin - 1] == '{' && Forward(specs)
    ensures ok ==> begin <= next <= |f| && Reads(f, begin - 1, events, next, specs)
    ensures !ok ==> Agrees(events, Naive(f, begin - 1, specs))
  {
    hide *;
    next := begin;
    if begin == |f| {
      OpensNothing(f, begin - 1, specs);
      return [Error(INVALID)], next, false;
    }
    if f[begin] == '}' {
      OpensAutomatic(f, begin - 1, specs);
      return [NextArg, Field(begin)], begin + 1, true;
    }
    if f[begin] == '{' {
      OpensText(f, begin - 1, specs);
      return [Text("{")], begin + 1, true;
    }
    OpensField(f, begin - 1, specs);
    FieldAtShape(f, begin, specs);
    var close;
    events, close, ok := ParseField(f, begin, specs);
    next := close + 1;
  }

  /** A replacement field from its argument on, up to its closing brace. */
  method ParseField(f: string, begin: nat, specs: SpecsParser) returns (events: seq<Event>, close: nat, ok: bool)
    requires begin < |f| && Forward(specs)
    ensures (events, close) == FieldAt(f, begin, specs)
    ensures ok == !Failed(events)
  {
    var id, p := ParseArgId(f, begin);
    hide ArgId;
    if id.Error? {
      return [id], p, false;
    }
    var c := if p != |f| then f[p] else '\0';
    if c == '}' {
      return [id, Field(p)], p, true;
    }
    if c != ':' {
      return [id, Error(MISSING)], p, false;
    }
    match specs(f, p + 1) {
      case SpecsError(message) => return [id, Error(message)], p, false;
      case SpecsEnd(to) =>
        if to == |f| || f[to] != '}' {
          return [id, Specs(p + 1, to), Error(UNKNOWN)], to, false;
        }
        return [id, Specs(p + 1, to)], to, true;
    }
  }

  /** Parses a format string, reporting to the handler. */
  method ParseFormatString(f: string, specs: SpecsParser) returns (events: seq<Event>)
    requires Forward(specs)
    ensures Agrees(events, Naive(f, 0, specs))
  {
    events := [];
    var begin := 0;
    ReadsNone(f, 0, specs);
    while begin != |f|
      invariant begin <= |f|
      invariant Reads(f, 0, events, begin, specs)
      decreases |f| - begin
    {
      hide *;
      var found, p := true, begin;
      if f[begin] != '{' {
        found, p := Find(f, begin, |f|, '{');
      }
      var end := if found then p else |f|;
      var text, ok := Write(f, begin, end, specs);
      if !ok {
        ReadsError(f, 0, events, begin, text, specs);
        return events + text;
      }
      ReadsThen(f, 0, events, begin, text, end, specs);
      events := events + text;
      if !found {
        ReadsAll(f, events, specs);
        return;
      }
      var field;
      field, begin, ok := ReplacementField(f, p + 1, specs);
      if !ok {
        ReadsError(f, 0, events, p, field, specs);
        return events + field;
      }
      ReadsThen(f, 0, events, p, field, begin, specs);
      events := events + field;
    }
    ReadsAll(f, events, specs);
  }

  lemma ReadsAll(f: string, events: seq<Event>, specs: SpecsParser)
    requires Forward(specs) && Reads(f, 0, events, |f|, specs)
    ensures Agrees(events, Naive(f, 0, specs))
  {
    assert Exploded(events) + [] == Exploded(events);
  }

  // ----- Escaping -------------------------------------------------------------------------

  function Escaped(text: string): string {
    if text == "" then ""
    else (if text[0] == '{' || text[0] == '}' then [text[0], text[0]] else [text[0]]) + Escaped(text[1..])
  }

  predicate OnlyText(events: seq<Event>) {
    forall i :: 0 <= i < |events| ==> events[i].Text?
  }

  function TextOf(events: seq<Event>): string {
    if events == [] then ""
    else (if events[0].Text? then events[0].text else "") + TextOf(events[1..])
  }

  /** Escaped text means the text, wherever it stands at the end of a format string. */
  lemma {:induction false} EscapedMeans(before: string, text: string, specs: SpecsParser)
    requires Forward(specs)
    ensures Naive(before + Escaped(text), |before|, specs) == Singles(text)
    decreases |text|
  {
    var f, i := before + Escaped(text), |before|;
    if text == "" {
      assert Naive(f, i, specs) == [];
    } else {
      var piece := if text[0] == '{' || text[0] == '}' then [text[0], text[0]] else [text[0]];
      EscapedMeans(before + piece, text[1..], specs);
      assert f == before + piece + Escaped(text[1..]);
      OneEscaped(f, i, text[0], specs);
      hide Naive;
      assert text == [text[0]] + text[1..];
      SinglesConcat([text[0]], text[1..]);
    }
  }

  lemma OneEscaped(f: string, i: nat, c: char, specs: SpecsParser)
    requires i < |f| && f[i] == c && Forward(specs)
    requires c == '{' || c == '}' ==> i + 1 < |f| && f[i + 1] == c
    ensures Naive(f, i, specs) == [Text([c])] + Naive(f, if c == '{' || c == '}' then i + 2 else i + 1, specs)
  {
  }

  lemma TextOfCons(text: string, rest: seq<Event>)
    ensures TextOf([Text(text)] + rest) == text + TextOf(rest)
    ensures OnlyText([Text(text)] + rest) == OnlyText(rest)
  {
    var all := [Text(text)] + rest;
    assert all[1..] == rest;
    assert forall k :: 0 <= k < |rest| ==> rest[k] == all[k + 1];
  }

  lemma EscapedCons(c: char, text: string)
    ensures Escaped([c] + text) == (if c == '{' || c == '}' then [c, c] else [c]) + Escaped(text)
  {
    assert ([c] + text)[1..] == text;
  }

  /** Only escaped text means nothing but text. */
  lemma {:induction false} OnlyEscapedMeansText(f: string, i: nat, specs: SpecsParser)
    requires i <= |f| && Forward(specs) && OnlyText(Naive(f, i, specs))
    ensures f[i..] == Escaped(TextOf(Naive(f, i, specs)))
    decreases |f| - i
  {
    if i < |f| {
      FirstOfText(f, i, specs);
      hide *;
      var pair := f[i] == '{' || f[i] == '}';
      var next := if pair then i + 2 else i + 1;
      var rest := Naive(f, next, specs);
      TextOfCons([f[i]], rest);
      OnlyEscapedMeansText(f, next, specs);
      EscapedBack(f, i, TextOf(rest));
    }
  }

  lemma EscapedBack(f: string, i: nat, text: string)
    requires i < |f| && (f[i] == '{' || f[i] == '}' ==> i + 1 < |f| && f[i + 1] == f[i])
    requires f[if f[i] == '{' || f[i] == '}' then i + 2 else i + 1..] == Escaped(text)
    ensures f[i..] == Escaped([f[i]] + text)
  {
    EscapedCons(f[i], text);
    hide Escaped;
    if f[i] == '{' || f[i] == '}' {
      assert f[i..] == [f[i], f[i]] + f[i + 2..];
    } else {
      assert f[i..] == [f[i]] + f[i + 1..];
    }
  }

  lemma FirstOfText(f: string, i: nat, specs: SpecsParser)
    requires i < |f| && Forward(specs) && OnlyText(Naive(f, i, specs))
    ensures f[i] == '{' || f[i] == '}' ==> i + 1 < |f| && f[i + 1] == f[i]
    ensures Naive(f, i, specs)
         == [Text([f[i]])] + Naive(f, if f[i] == '{' || f[i] == '}' then i + 2 else i + 1, specs)
  {
    if (f[i] == '{' || f[i] == '}') && (i + 1 == |f| || f[i + 1] != f[i]) {
      LoneBrace(f, i, specs);
    } else {
      OneEscaped(f, i, f[i], specs);
    }
  }

  lemma LoneBrace(f: string, i: nat, specs: SpecsParser)
    requires i < |f| && Forward(specs) && (f[i] == '{' || f[i] == '}') && (i + 1 == |f| || f[i + 1] != f[i])
    ensures Naive(f, i, specs) != [] && !Naive(f, i, specs)[0].Text?
  {
    if f[i] == '{' && i + 1 < |f| && f[i + 1] != '}' {
      FieldAtShape(f, i + 1, specs);
      hide ArgId;
    }
  }

  lemma {:induction false} ExplodedIsText(events: seq<Event>)
    ensures OnlyText(Exploded(events)) == OnlyText(events)
    ensures OnlyText(events) ==> Exploded(events) == Singles(TextOf(events))
  {
    if events == [] {
      assert Singles("") == [];
    } else {
      var first, rest := events[0], events[1..];
      ExplodedIsText(rest);
      hide Exploded;
      assert events == [first] + rest;
      ExplodedConcat([first], rest);
      ExplodedOne(first);
      if first.Text? {
        TextOfCons(first.text, rest);
        SinglesConcat(first.text, TextOf(rest));
        OnlyTextConcat(Singles(first.text), Exploded(rest));
      } else {
        assert ([first] + Exploded(rest))[0] == first;
      }
    }
  }

  lemma OnlyTextConcat(a: seq<Event>, b: seq<Event>)
    requires OnlyText(a)
    ensures OnlyText(a + b) == OnlyText(b)
  {
    assert forall k :: 0 <= k < |b| ==> b[k] == (a + b)[|a| + k];
  }

  lemma SinglesText(text: string)
    ensures OnlyText(Singles(text)) && TextOf(Singles(text)) == text
  {
    if text != "" {
      SinglesText(text[1..]);
      SinglesConcat([text[0]], text[1..]);
      assert text == [text[0]] + text[1..];
      TextOfCons([text[0]], Singles(text[1..]));
    }
  }

  /** What the parser reports is text and nothing else exactly when what the format
      string means is, and then it is the same text. */
  lemma AgreesOnText(events: seq<Event>, naive: seq<Event>)
    requires Agrees(events, naive)
    ensures OnlyText(events) == OnlyText(naive)
    ensures OnlyText(events) ==> TextOf(events) == TextOf(naive)
  {
    if naive == Exploded(events) {
      ExplodedIsText(events);
      SinglesText(TextOf(events));
    } else {
      assert events[|events| - 1].Error?;
      assert naive[|naive| - 1] == events[|events| - 1];
    }
  }

  /** Any text, its braces doubled, is reported back as that text, with no argument and
      no error; and nothing but such text is reported as text alone. */
  lemma EscapeRoundTrip(f: string, events: seq<Event>, specs: SpecsParser)
    requires Forward(specs) && Agrees(events, Naive(f, 0, specs))
    ensures OnlyText(events) <==> exists text :: f == Escaped(text)
    ensures forall text :: f == Escaped(text) ==> TextOf(events) == text
  {
    AgreesOnText(events, Naive(f, 0, specs));
    forall text | f == Escaped(text)
      ensures OnlyText(events) && TextOf(events) == text
    {
      EscapedMeans("", text, specs);
      assert "" + Escaped(text) == f;
      SinglesText(text);
    }
    if OnlyText(events) {
      OnlyEscapedMeansText(f, 0, specs);
      assert f[0..] == f;
    }
  }
}
