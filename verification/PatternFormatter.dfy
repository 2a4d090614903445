/** Formatting by a compiled pattern, with its two caches of the date and time. */
module PatternFormatter {
  import opened Decimal
  import opened Calendar
  import opened PatternPad
  import opened PatternCompiler
  import opened PatternFields
  import IntParsing

  // ----- The formatters -------------------------------------------------------------------

  /** The default pattern's formatter; it keeps the date and time of the last second. */
  class FullFormatter {
    var cacheTimestamp: int
    var cachedDatetime: string

    constructor ()
      ensures cacheTimestamp == 0 && cachedDatetime == ""
    {
      cacheTimestamp, cachedDatetime := 0, "";
    }

    /** Nothing is cached yet, or the cache is of this second and this time. */
    ghost predicate Synced(secs: int, tm: Tm)
      reads this
    {
      cachedDatetime == "" || (cacheTimestamp == secs && cachedDatetime == Datetime(tm))
    }

    /** Writes the date and time of tm, or of the cache while the second lasts. The
        source assembles it in the cache piece by piece. */
    method Format(msg: Message, tm: Tm, dest: MemoryBuffer)
      modifies this, dest
      ensures cacheTimestamp == Secs(msg.time)
      ensures cachedDatetime == if old(cacheTimestamp) != Secs(msg.time) || old(cachedDatetime) == ""
                                then Datetime(tm) else old(cachedDatetime)
      ensures dest.text == old(dest.text) + (cachedDatetime + FullRest(msg))
    {
      var secs := Secs(msg.time);
      if cacheTimestamp != secs || cachedDatetime == "" {
        cachedDatetime := Datetime(tm);
        cacheTimestamp := secs;
      }
      hide Secs;
      hide Datetime;
      hide PadUint;
      hide Millis;
      hide Dec;
      ghost var before := dest.text;
      dest.Append(cachedDatetime);
      dest.Append(PadUint(Millis(msg.time), 3) + "] ");
      if msg.name != "" {
        dest.Append("[" + msg.name + "] ");
      } else {
        assert dest.text + "" == dest.text;
      }
      assert dest.text == before + cachedDatetime + (PadUint(Millis(msg.time), 3) + "] ") + NamePart(msg);
      dest.Append("[" + msg.level + "] ");
      if msg.line != 0 {
        dest.Append("[" + msg.file + ":" + Dec(msg.line) + "] ");
      } else {
        assert dest.text + "" == dest.text;
      }
      dest.Append(msg.payload);
      Regroup(before, cachedDatetime, PadUint(Millis(msg.time), 3) + "] ", NamePart(msg),
              "[" + msg.level + "] ", SourcePart(msg), msg.payload);
    }
  }

  lemma Regroup(t: string, d: string, m: string, n: string, l: string, s: string, p: string)
    ensures t + d + m + n + l + s + p == t + (d + (m + n + l + s + p))
  {
  }

  /** A formatter of the list: the default pattern's has state, the others have none. */
  datatype FlagObject = FullFlag(full: FullFormatter) | PlainFlag(spec: FlagFormatter)

  function SpecOf(o: FlagObject): FlagFormatter {
    match o
    case FullFlag(_) => Full
    case PlainFlag(spec) => spec
  }

  function Specs(fs: seq<FlagObject>): (r: seq<FlagFormatter>)
    ensures |r| == |fs| && forall i :: 0 <= i < |fs| ==> r[i] == SpecOf(fs[i])
  {
    seq(|fs|, i requires 0 <= i < |fs| => SpecOf(fs[i]))
  }

  /** The stateful formatters of a list. */
  ghost function Repr(fs: seq<FlagObject>): set<object> {
    set i | 0 <= i < |fs| && fs[i].FullFlag? :: fs[i].full
  }

  ghost predicate Distinct(fs: seq<FlagObject>) {
    && (forall i :: 0 <= i < |fs| ==> fs[i].PlainFlag? ==> fs[i].spec != Full)
    && forall i, j :: 0 <= i < j < |fs| && fs[i].FullFlag? && fs[j].FullFlag? ==> fs[i].full != fs[j].full
  }

  /** The caches of formatters lo to hi - 1 are empty or of this second and this time. */
  ghost predicate AllSynced(fs: seq<FlagObject>, lo: nat, hi: nat, secs: int, tm: Tm)
    requires hi <= |fs|
    reads Repr(fs)
  {
    forall i :: lo <= i < hi && fs[i].FullFlag? ==> fs[i].full.Synced(secs, tm)
  }

  lemma NoneSynced(fs: seq<FlagObject>, secs: int, tm: Tm)
    ensures AllSynced(fs, 0, 0, secs, tm)
  {
  }

  // ----- The pattern formatter ------------------------------------------------------------

  /** What the source has before the first conversion: all fields zero. */
  const ZERO_TM := Tm(0, 0, 0, 0, 0, 0, 0, 0)

  /** Some message so far was outside the seconds around the epoch that truncate to 0. */
  predicate Primed(times: seq<int>) {
    exists i :: 0 <= i < |times| && Secs(times[i]) != 0
  }

  /** The broken-down time used for the last of these messages. */
  function TmUsed(timeOf: int -> Tm, times: seq<int>): Tm {
    if times != [] && Primed(times) then timeOf(Secs(times[|times| - 1])) else ZERO_TM
  }

  class PatternFormatter {
    const pattern: string
    const eol: string
    const counter: bool
    const timeOf: int -> Tm
    const fields: Fields
    var cachedTm: Tm
    var lastLogSecs: int
    var formatters: seq<FlagObject>
    ghost var times: seq<int>

    ghost predicate Valid()
      reads this, Repr(formatters)
    {
      && Distinct(formatters)
      && Specs(formatters) == Compiled(pattern, counter)
      && lastLogSecs == (if times == [] then 0 else Secs(times[|times| - 1]))
      && cachedTm == TmUsed(timeOf, times)
      && AllSynced(formatters, 0, |formatters|, lastLogSecs, cachedTm)
    }

    constructor (pattern: string, eol: string, counter: bool, timeOf: int -> Tm, fields: Fields)
      ensures this.pattern == pattern && this.eol == eol && this.counter == counter
      ensures this.timeOf == timeOf && this.fields == fields
      ensures times == [] && Valid() && fresh(Repr(formatters))
    {
      this.pattern, this.eol, this.counter := pattern, eol, counter;
      this.timeOf, this.fields := timeOf, fields;
      cachedTm, lastLogSecs := ZERO_TM, 0;
      formatters := [];
      times := [];
      new;
      CompilePattern();
    }

    /** Compiles the pattern from left to right, gathering plain text on the way. */
    method CompilePattern()
      modifies this`formatters
      ensures Specs(formatters) == Compiled(pattern, counter)
      ensures Distinct(formatters) && fresh(Repr(formatters)) && Blank(formatters)
    {
      hide *;
      var userChars := "";
      formatters := [];
      var it := 0;
      CompiledStart(pattern, counter);
      while it < |pattern|
        invariant it <= |pattern| && Gathered(pattern, it, userChars)
        invariant Progress(formatters, pattern, it, userChars, counter)
        invariant Distinct(formatters) && fresh(Repr(formatters)) && Blank(formatters)
      {
        if pattern[it] == '%' {
          it := FlushAndCompile(userChars, it);
          userChars := "";
        } else {
          GatherOne(formatters, pattern, it, userChars, counter);
          userChars := userChars + [pattern[it]];
          it := it + 1;
        }
      }
      Flush(userChars, it);
      CompiledEnd(formatters, pattern, counter);
    }

    /** Ends the plain text gathered before pattern[it], if there is any. */
    method Flush(userChars: string, it: nat)
      requires Distinct(formatters) && Blank(formatters)
      requires it <= |pattern| && Gathered(pattern, it, userChars)
      requires it < |pattern| ==> pattern[it] == '%'
      modifies this`formatters
      ensures Distinct(formatters) && Blank(formatters)
      ensures Repr(formatters) == old(Repr(formatters))
      ensures old(Progress(formatters, pattern, it, userChars, counter)) ==>
                Progress(formatters, pattern, it, "", counter)
    {
      hide Specs;
      hide Compiled;
      if userChars != "" {
        EndOfPlain(pattern, it, userChars, counter);
        ghost var before := Specs(formatters);
        PushBack(PlainFlag(Aggregate(userChars)));
        Grouped(before, Aggregate(userChars), Compiled(pattern[it..], counter));
      }
    }

    /** At a percent sign: what was gathered, then the directive. */
    method FlushAndCompile(userChars: string, it: nat) returns (next: nat)
      requires Distinct(formatters) && Blank(formatters)
      requires it < |pattern| && pattern[it] == '%' && Gathered(pattern, it, userChars)
      requires Progress(formatters, pattern, it, userChars, counter)
      modifies this`formatters
      ensures Distinct(formatters) && Blank(formatters)
      ensures forall o :: o in Repr(formatters) ==> o in old(Repr(formatters)) || fresh(o)
      ensures it < next <= |pattern| && Gathered(pattern, next, "")
      ensures Progress(formatters, pattern, next, "", counter)
    {
      hide *;
      Flush(userChars, it);
      next := Directive(it);
      GatherNone(pattern, next);
    }

    /** Compiles the directive at pattern[it]; the end of the pattern cuts it short. */
    method Directive(it: nat) returns (next: nat)
      requires Distinct(formatters) && Blank(formatters)
      requires it < |pattern| && pattern[it] == '%'
      modifies this`formatters
      ensures Distinct(formatters) && Blank(formatters)
      ensures forall o :: o in Repr(formatters) ==> o in old(Repr(formatters)) || fresh(o)
      ensures it < next <= |pattern|
      ensures old(Progress(formatters, pattern, it, "", counter)) ==>
                Progress(formatters, pattern, next, "", counter)
    {
      hide Compiled;
      hide PadSpec;
      hide Specs;
      hide HandleFlag;
      hide Distinct;
      var padding;
      padding, next := HandlePadspec(pattern, it + 1);
      CompiledDirective(pattern, it, next, padding, counter);
      ghost var before := Specs(formatters);
      if next < |pattern| {
        HandleFlagOf(pattern[next], padding);
        next := next + 1;
        Grouped(before, HandleFlag(pattern[next - 1], padding, counter), Compiled(pattern[next..], counter));
      }
    }

    method HandleFlagOf(flag: char, padding: Padding)
      requires Distinct(formatters) && Blank(formatters)
      modifies this`formatters
      ensures Distinct(formatters) && Blank(formatters)
      ensures Specs(formatters) == old(Specs(formatters)) + [HandleFlag(flag, padding, counter)]
      ensures forall o :: o in Repr(formatters) ==> o in old(Repr(formatters)) || fresh(o)
    {
      hide Specs;
      var spec := HandleFlag(flag, padding, counter);
      if spec == Full {
        var full := new FullFormatter();
        PushBack(FullFlag(full));
      } else {
        PushBack(PlainFlag(spec));
      }
    }

    /** Formats one message, with the broken-down time that the messages so far leave in
        use. Once one of them has been outside the seconds around the epoch that
        truncate to 0, that is the message's own, and the caches make no difference. */
    method Format(msg: Message, dest: MemoryBuffer)
      requires Valid()
      modifies this`cachedTm, this`lastLogSecs, this`times, Repr(formatters), dest
      ensures Valid()
      ensures times == old(times) + [msg.time]
      ensures dest.text == old(dest.text)
                           + RenderAll(Compiled(pattern, counter), Rendered(msg, TmUsed(timeOf, times), fields)) + eol
      ensures Primed(times) ==>
                dest.text == old(dest.text)
                             + RenderAll(Compiled(pattern, counter), Rendered(msg, timeOf(Secs(msg.time)), fields))
                             + eol
    {
      hide Compiled, Secs, TmUsed, Primed, Rendered, RenderAll, AllSynced, Distinct, Specs, PaddingOf;
      TmStep(timeOf, times, msg.time);
      PrimedUse(timeOf, times + [msg.time]);
      ghost var before, oldSecs, oldTm := dest.text, lastLogSecs, cachedTm;
      var secs := Secs(msg.time);
      if secs != lastLogSecs {
        cachedTm := timeOf(secs);
        lastLogSecs := secs;
      }
      times := times + [msg.time];
      WidthsBounded(pattern, counter);
      FormatAll(msg, dest, oldSecs, oldTm);
      dest.Append(eol);
    }

    /** All formatters, in order. Their caches are of the last message's second. */
    method FormatAll(msg: Message, dest: MemoryBuffer, ghost oldSecs: int, ghost oldTm: Tm)
      requires Distinct(formatters) && AllBounded(Specs(formatters))
      requires lastLogSecs == Secs(msg.time) && (oldSecs == lastLogSecs ==> oldTm == cachedTm)
      requires AllSynced(formatters, 0, |formatters|, oldSecs, oldTm)
      modifies Repr(formatters), dest
      ensures AllSynced(formatters, 0, |formatters|, lastLogSecs, cachedTm)
      ensures dest.text == old(dest.text) + RenderAll(Specs(formatters), Rendered(msg, cachedTm, fields))
    {
      hide Secs, Rendered, RenderAll, AllSynced, Distinct, Specs, PaddingOf;
      ghost var specs, before, render := Specs(formatters), dest.text, Rendered(msg, cachedTm, fields);
      RenderNone(specs, render);
      assert before + "" == before;
      NoneSynced(formatters, lastLogSecs, cachedTm);
      for i := 0 to |formatters|
        invariant dest.text == before + RenderAll(specs[..i], render)
        invariant AllSynced(formatters, 0, i, lastLogSecs, cachedTm)
        invariant AllSynced(formatters, i, |formatters|, oldSecs, oldTm)
      {
        RenderNext(specs, i, render);
        FormatAt(i, msg, dest, oldSecs, oldTm);
        Reassociate(before, RenderAll(specs[..i], render), render(specs[i]));
      }
      assert specs[..|specs|] == specs;
    }

    method FormatAt(i: nat, msg: Message, dest: MemoryBuffer, ghost oldSecs: int, ghost oldTm: Tm)
      requires i < |formatters| && Distinct(formatters) && PaddingOf(Specs(formatters)[i]).Bounded()
      requires lastLogSecs == Secs(msg.time) && (oldSecs == lastLogSecs ==> oldTm == cachedTm)
      requires AllSynced(formatters, 0, i, lastLogSecs, cachedTm)
      requires AllSynced(formatters, i, |formatters|, oldSecs, oldTm)
      modifies Repr(formatters), dest
      ensures AllSynced(formatters, 0, i + 1, lastLogSecs, cachedTm)
      ensures AllSynced(formatters, i + 1, |formatters|, oldSecs, oldTm)
      ensures dest.text == old(dest.text) + Rendered(msg, cachedTm, fields)(Specs(formatters)[i])
    {
      hide Rendered;
      hide Secs;
      hide Datetime;
      hide PaddingOf;
      FormatOne(formatters[i], msg, dest, oldSecs, oldTm);
    }

    /** One formatter's part. Its cache, if it has one, is of the last message's second. */
    method FormatOne(o: FlagObject, msg: Message, dest: MemoryBuffer, ghost oldSecs: int, ghost oldTm: Tm)
      requires lastLogSecs == Secs(msg.time) && (oldSecs == lastLogSecs ==> oldTm == cachedTm)
      requires o.FullFlag? ==> o.full.Synced(oldSecs, oldTm)
      requires o.PlainFlag? ==> o.spec != Full && PaddingOf(o.spec).Bounded()
      modifies ReprOf(o), dest
      ensures dest.text == old(dest.text) + Rendered(msg, cachedTm, fields)(SpecOf(o))
      ensures o.FullFlag? ==> o.full.Synced(lastLogSecs, cachedTm)
    {
      match o
      case FullFlag(full) => full.Format(msg, cachedTm, dest);
      case PlainFlag(spec) => FormatPlain(spec, msg, dest);
    }

    method FormatPlain(spec: FlagFormatter, msg: Message, dest: MemoryBuffer)
      requires spec != Full && PaddingOf(spec).Bounded()
      modifies dest
      ensures dest.text == old(dest.text) + Rendered(msg, cachedTm, fields)(spec)
    {
      match spec
      case Name(p) => AppendField(msg.name, p, dest);
      case Level(p) => AppendField(msg.level, p, dest);
      case Payload(p) => AppendField(msg.payload, p, dest);
      case Percent =>
        UnpaddedField("%", NO_PADDING);
        AppendField("%", NO_PADDING, dest);
      case Aggregate(text) => dest.Append(text);
      case Field(flag, p) =>
        if IsTimeField(flag) {
          AppendDeclared(TimeText(flag, msg, cachedTm), DeclaredSize(flag, cachedTm), p, dest);
        } else {
          dest.Append(fields(flag, p, msg, cachedTm));
        }
    }

    method PushBack(o: FlagObject)
      requires Distinct(formatters) && Blank(formatters)
      requires o.FullFlag? ==> o.full !in Repr(formatters) && o.full.cachedDatetime == ""
      requires o.PlainFlag? ==> o.spec != Full
      modifies this`formatters
      ensures Distinct(formatters) && Blank(formatters)
      ensures Specs(formatters) == old(Specs(formatters)) + [SpecOf(o)]
      ensures Repr(formatters) == old(Repr(formatters)) + ReprOf(o)
    {
      ReprSnoc(formatters, o);
      formatters := formatters + [o];
    }
  }

  lemma RenderNext(specs: seq<FlagFormatter>, i: nat, render: Rendering)
    requires i < |specs|
    ensures RenderAll(specs[..i + 1], render) == RenderAll(specs[..i], render) + render(specs[i])
  {
    RenderSnoc(specs[..i], specs[i], render);
    assert specs[..i + 1] == specs[..i] + [specs[i]];
  }

  lemma RenderNone(specs: seq<FlagFormatter>, render: Rendering)
    ensures RenderAll(specs[..0], render) == ""
  {
  }

  ghost predicate Gathered(pattern: string, it: nat, userChars: string) {
    && |userChars| <= it <= |pattern|
    && pattern[it - |userChars|..it] == userChars && '%' !in userChars
  }

  /** What is still to come when userChars has been gathered before pattern[it]. */
  ghost function Rest(pattern: string, it: nat, userChars: string, counter: bool): seq<FlagFormatter>
    requires it <= |pattern|
  {
    if |userChars| <= it then Compiled(pattern[it - |userChars|..], counter) else []
  }

  /** What has been compiled and what is still to come make up the whole. */
  ghost predicate Progress(fs: seq<FlagObject>, pattern: string, it: nat, userChars: string, counter: bool)
    requires it <= |pattern|
  {
    Specs(fs) + Rest(pattern, it, userChars, counter) == Compiled(pattern, counter)
  }

  lemma GatherOne(fs: seq<FlagObject>, pattern: string, it: nat, userChars: string, counter: bool)
    requires Gathered(pattern, it, userChars) && it < |pattern| && pattern[it] != '%'
    requires Progress(fs, pattern, it, userChars, counter)
    ensures Gathered(pattern, it + 1, userChars + [pattern[it]])
    ensures Progress(fs, pattern, it + 1, userChars + [pattern[it]], counter)
  {
    hide Compiled;
  }

  lemma GatherNone(pattern: string, it: nat)
    requires it <= |pattern|
    ensures Gathered(pattern, it, "")
  {
  }

  lemma CompiledStart(pattern: string, counter: bool)
    ensures Repr([]) == {} && Blank([]) && Distinct([])
    ensures Gathered(pattern, 0, "")
    ensures Progress([], pattern, 0, "", counter)
  {
    hide Compiled;
    assert pattern[0..] == pattern;
  }

  // ----- The caches ---------------------------------------------------------------------

  lemma PrimedUse(timeOf: int -> Tm, times: seq<int>)
    requires times != []
    ensures Primed(times) ==> TmUsed(timeOf, times) == timeOf(Secs(times[|times| - 1]))
  {
  }

  /** When the broken-down time is recomputed, it is what it ought to be; when not, it
      stays what it was. */
  lemma TmStep(timeOf: int -> Tm, times: seq<int>, time: int)
    ensures var last := if times == [] then 0 else Secs(times[|times| - 1]);
            TmUsed(timeOf, times + [time]) == if Secs(time) != last then timeOf(Secs(time)) else TmUsed(timeOf, times)
  {
    hide Secs;
    var after := times + [time];
    assert after[|times|] == time;
    assert forall i :: 0 <= i < |times| ==> after[i] == times[i];
    if Primed(times) {
      var i :| 0 <= i < |times| && Secs(times[i]) != 0;
      assert Secs(after[i]) != 0;
    }
  }

  /** Text with its percent signs doubled, compiled: what Format then promises is that
      text and the end of line, whatever the message and the state of the caches. */
  lemma DoubledPrintsItself(text: string, eol: string, counter: bool, timeOf: int -> Tm, fields: Fields,
                            times: seq<int>, msg: Message)
    ensures RenderAll(Compiled(Doubled(text), counter), Rendered(msg, TmUsed(timeOf, times), fields)) + eol
         == text + eol
  {
    RenderedIsLiteral(msg, TmUsed(timeOf, times), fields);
    DoubledRoundTrip(text, counter, Rendered(msg, TmUsed(timeOf, times), fields));
  }

  /** With the default pattern that is the exact condition: before then, the date is
      the zeroth of the month, and no real date is. */
  lemma DefaultPatternExact(timeOf: int -> Tm, fields: Fields, times: seq<int>, msg: Message)
    requires times != [] && times[|times| - 1] == msg.time
    requires 1 <= timeOf(0).mday <= 31 && 0 <= timeOf(0).mon <= 11 && 0 <= timeOf(0).hour <= 23
    requires 0 <= timeOf(0).min <= 59 && 0 <= timeOf(0).sec <= 60
    ensures Rendered(msg, TmUsed(timeOf, times), fields)(Full) == Rendered(msg, timeOf(Secs(msg.time)), fields)(Full)
       <==> Primed(times)
  {
    if !Primed(times) {
      assert Secs(times[|times| - 1]) == 0;
      var a, b := Datetime(ZERO_TM), Datetime(timeOf(0));
      DatesDiffer(timeOf(0));
      hide Datetime;
      hide FullRest;
      SameEnd(a, b, FullRest(msg));
    }
  }

  /** The part of a date and time after the year: its length is always the same. */
  function AfterYear(tm: Tm): string {
    "-" + Pad2(tm.mon + 1) + "-" + Pad2(tm.mday) + " " + Pad2(tm.hour) + ":" + Pad2(tm.min) + ":" + Pad2(tm.sec) + "."
  }

  lemma DatesDiffer(tm: Tm)
    requires 1 <= tm.mday <= 31 && 0 <= tm.mon <= 11 && 0 <= tm.hour <= 23 && 0 <= tm.min <= 59 && 0 <= tm.sec <= 60
    ensures Datetime(tm) != Datetime(ZERO_TM)
  {
    AfterYearShape(tm);
    AfterYearShape(ZERO_TM);
    Pad2OfZero(tm.mday);
    YearFirst(tm);
    YearFirst(ZERO_TM);
    hide *;
    var s, t := Datetime(tm), Datetime(ZERO_TM);
    assert s[|s| - 12] == AfterYear(tm)[4] && s[|s| - 11] == AfterYear(tm)[5];
    assert t[|t| - 12] == AfterYear(ZERO_TM)[4] && t[|t| - 11] == AfterYear(ZERO_TM)[5];
  }

  lemma SameEnd(a: string, b: string, c: string)
    ensures a + c == b + c ==> a == b
  {
    if a + c == b + c {
      assert a == (a + c)[..|a|];
      assert b == (b + c)[..|b|];
    }
  }

  lemma YearFirst(tm: Tm)
    ensures Datetime(tm) == "[" + IntParsing.SignedText(tm.year + 1900) + AfterYear(tm)
  {
    hide Pad2;
    hide IntParsing.SignedText;
  }

  lemma AfterYearShape(tm: Tm)
    requires 0 <= tm.mday <= 31 && 0 <= tm.mon <= 11 && 0 <= tm.hour <= 23 && 0 <= tm.min <= 59 && 0 <= tm.sec <= 60
    ensures |AfterYear(tm)| == 16
    ensures |Pad2(tm.mday)| == 2 && AfterYear(tm)[4] == Pad2(tm.mday)[0] && AfterYear(tm)[5] == Pad2(tm.mday)[1]
  {
    hide Decimal.Padded;
  }

  lemma Pad2OfZero(n: nat)
    requires 1 <= n <= 31
    ensures |Pad2(n)| == |Pad2(0)| == 2 && (Pad2(n)[0] != Pad2(0)[0] || Pad2(n)[1] != Pad2(0)[1])
  {
    assert Decimal.Padded(n, 2) == Decimal.Padded(n / 10, 1) + [DigitChar(n % 10)];
    assert Decimal.Padded(n / 10, 1) == [] + [DigitChar(n / 10)];
    assert Decimal.Padded(0, 2) == Decimal.Padded(0, 1) + [DigitChar(0)];
    assert Decimal.Padded(0, 1) == [] + [DigitChar(0)];
  }

  /** None of the stateful formatters has cached anything. */
  ghost predicate Blank(fs: seq<FlagObject>)
    reads Repr(fs)
  {
    forall i :: 0 <= i < |fs| && fs[i].FullFlag? ==> fs[i].full.cachedDatetime == ""
  }

  ghost function ReprOf(o: FlagObject): set<object> {
    if o.FullFlag? then {o.full} else {}
  }

  lemma ReprSnoc(fs: seq<FlagObject>, o: FlagObject)
    ensures Repr(fs + [o]) == Repr(fs) + ReprOf(o)
  {
    var gs := fs + [o];
    assert forall i :: 0 <= i < |fs| ==> gs[i] == fs[i];
    assert gs[|fs|] == o;
    forall x | x in Repr(fs) + ReprOf(o)
      ensures x in Repr(gs)
    {
      if x in Repr(fs) {
        var i :| 0 <= i < |fs| && fs[i].FullFlag? && fs[i].full == x;
        assert gs[i].FullFlag? && gs[i].full == x;
      } else {
        assert gs[|fs|].FullFlag? && gs[|fs|].full == x;
      }
    }
  }

  lemma Grouped<T>(a: seq<T>, x: T, b: seq<T>)
    ensures (a + [x]) + b == a + ([x] + b)
  {
  }

  lemma CompiledEnd(fs: seq<FlagObject>, pattern: string, counter: bool)
    requires Progress(fs, pattern, |pattern|, "", counter)
    ensures Specs(fs) == Compiled(pattern, counter)
  {
    assert Compiled(pattern[|pattern|..], counter) == [];
  }

  lemma CompiledDirective(pattern: string, it: nat, next: nat, padding: Padding, counter: bool)
    requires it < next <= |pattern| && pattern[it] == '%'
    requires PadSpec(pattern[it + 1..]) == (padding, next - it - 1)
    ensures next == |pattern| ==> Compiled(pattern[it..], counter) == Compiled(pattern[next..], counter)
    ensures next < |pattern| ==> Compiled(pattern[it..], counter) ==
                                 [HandleFlag(pattern[next], padding, counter)] + Compiled(pattern[next + 1..], counter)
  {
    hide PadSpec;
    hide HandleFlag;
    var rest := pattern[it..];
    assert rest[1..] == pattern[it + 1..];
    if next < |pattern| {
      assert rest[next - it + 1..] == pattern[next + 1..];
    }
  }

  lemma EndOfPlain(pattern: string, it: nat, userChars: string, counter: bool)
    requires 0 < |userChars| <= it <= |pattern|
    requires pattern[it - |userChars|..it] == userChars && '%' !in userChars
    requires it < |pattern| ==> pattern[it] == '%'
    ensures Compiled(pattern[it - |userChars|..], counter) == [Aggregate(userChars)] + Compiled(pattern[it..], counter)
  {
    hide Compiled;
    var n := |userChars|;
    var s := pattern[it - n..];
    forall i | 0 <= i < n
      ensures s[i] != '%'
    {
      assert s[i] == userChars[i];
    }
    CompiledPlain(s, n, counter);
    assert s[..n] == userChars && s[n..] == pattern[it..];
  }
}
