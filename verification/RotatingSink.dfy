/** The size-rotated log file: what is on disk, slot by slot, and what is kept. */
module RotatingSink {
  import opened FileNames

  datatype Slot = Absent | Holding(text: string)

  /** The files of one log by rotation index; index 0 is the one being written. */
  type Slots = seq<Slot>

  /** One try at moving the file of slot i - 1 to slot i: it deletes what is in slot i,
      then renames. Either step can fail; a failed deletion is not noticed. */
  datatype Attempt = Renamed | Failed(removed: bool)

  /** How the two tries for each slot come out, given by slot and try. */
  type Renames = (nat, nat) -> Attempt

  function TextOf(s: Slot): string {
    match s
    case Absent => ""
    case Holding(t) => t
  }

  /** All retained text, oldest first: the highest slot comes first. */
  function Joined(slots: Slots): string {
    if slots == [] then "" else Joined(slots[1..]) + TextOf(slots[0])
  }

  ghost predicate IsSuffix(x: string, s: string) {
    exists p :: s == p + x
  }

  /** Every file moves up one slot. The last slot keeps its file when there is nothing
      to replace it, and slot 0 is truncated. */
  function Rotated(slots: Slots): (r: Slots)
    requires slots != []
    ensures |r| == |slots|
  {
    var max := |slots| - 1;
    if max > 0 && slots[max - 1] == Absent
    then [Holding("")] + slots[..max - 1] + [slots[max]]
    else [Holding("")] + slots[..max]
  }

  /** The text a complete rotation pushes out of the last slot. */
  function Lost(slots: Slots): string
    requires slots != []
  {
    var max := |slots| - 1;
    if max == 0 || slots[max - 1] != Absent then TextOf(slots[max]) else ""
  }

  predicate GivesUp(slots: Slots, renames: Renames, i: nat)
    requires 0 < i < |slots|
  {
    slots[i - 1] != Absent && renames(i, 0).Failed? && renames(i, 1).Failed?
  }

  /** The highest slot, up to i, that both tries fail to fill; 0 if there is none. */
  function StuckAt(slots: Slots, renames: Renames, i: nat): (k: nat)
    requires i < |slots|
    ensures k <= i
    ensures k > 0 ==> GivesUp(slots, renames, k)
    ensures forall j :: k < j <= i ==> !GivesUp(slots, renames, j)
  {
    if i == 0 || GivesUp(slots, renames, i) then i else StuckAt(slots, renames, i - 1)
  }

  /** Slots when the loop of the rotation has come down to i. */
  function Partway(slots: Slots, i: nat): (r: Slots)
    requires i < |slots|
    ensures |r| == |slots|
  {
    slots[..i] + [if i == |slots| - 1 then slots[i] else Absent] + Rotated(slots)[i + 1..]
  }

  lemma PartwayEnds(slots: Slots)
    requires slots != []
    ensures Partway(slots, |slots| - 1) == slots
    ensures Partway(slots, 0)[0 := Holding("")] == Rotated(slots)
  {
  }

  /** A complete rotation, slot by slot, whatever slots are present. */
  lemma RotatedAt(slots: Slots, j: nat)
    requires 0 < j < |slots|
    ensures Rotated(slots)[j]
         == if slots[j - 1] == Absent && j == |slots| - 1 then slots[j] else slots[j - 1]
  {
  }

  lemma PartwayAt(slots: Slots, i: nat, j: nat)
    requires i < |slots| && j < |slots|
    ensures Partway(slots, i)[j]
         == if j < i then slots[j]
            else if j > i then Rotated(slots)[j]
            else if i == |slots| - 1 then slots[i] else Absent
  {
    hide Rotated;
  }

  lemma PartwayStep(slots: Slots, i: nat)
    requires 0 < i < |slots|
    ensures var p := Partway(slots, i);
            && p[..i] == slots[..i] && p[i - 1] == slots[i - 1]
            && Partway(slots, i - 1)
               == if slots[i - 1] == Absent then p else p[i := slots[i - 1]][i - 1 := Absent]
  {
    hide Partway;
    hide Rotated;
    forall j | 0 <= j < |slots|
      ensures Partway(slots, i)[j] == if j < i then slots[j]
                                      else if j > i then Rotated(slots)[j]
                                      else if i == |slots| - 1 then slots[i] else Absent
      ensures Partway(slots, i - 1)[j] == if j < i - 1 then slots[j]
                                          else if j >= i then Rotated(slots)[j] else Absent
    {
      PartwayAt(slots, i, j);
      PartwayAt(slots, i - 1, j);
    }
    RotatedAt(slots, i);
  }

  /** The slots after giving up at slot k. */
  function Abandoned(slots: Slots, renames: Renames, k: nat): (r: Slots)
    requires 0 < k < |slots|
    ensures |r| == |slots|
  {
    var removed := renames(k, 0) == Failed(true) || renames(k, 1) == Failed(true);
    (if removed then Partway(slots, k)[k := Absent] else Partway(slots, k))[0 := Holding("")]
  }

  /** Giving up at slot k, slot by slot: an empty log, the slots below k as they were, slot
      k without its file if either try removed it or a rename had moved it on, the slots
      above k rotated. */
  lemma AbandonedAt(slots: Slots, renames: Renames, k: nat, j: nat)
    requires 0 < k < |slots| && j < |slots|
    ensures Abandoned(slots, renames, k)[j]
         == if j == 0 then Holding("")
            else if j < k then slots[j]
            else if j > k then (if slots[j - 1] == Absent && j == |slots| - 1 then slots[j] else slots[j - 1])
            else if k == |slots| - 1 && renames(k, 0) != Failed(true) && renames(k, 1) != Failed(true) then slots[k]
            else Absent
  {
    PartwayAt(slots, k, j);
    RotatedAt(slots, if j == 0 then k else j);
    hide Partway, Rotated;
  }

  /** What logging one text makes of the slots, and whether it got written. */
  function Sunk(slots: Slots, text: string, maxSize: nat, renames: Renames): (r: (Slots, bool))
    requires slots != []
    ensures |r.0| == |slots|
  {
    if |TextOf(slots[0])| + |text| <= maxSize then (slots[0 := Holding(TextOf(slots[0]) + text)], true)
    else
      var k := StuckAt(slots, renames, |slots| - 1);
      if k == 0 then (Rotated(slots)[0 := Holding(text)], true)
      else (Abandoned(slots, renames, k), false)
  }

  // What a rotation keeps.

  lemma JoinedCons(s: Slot, t: Slots)
    ensures Joined([s] + t) == Joined(t) + TextOf(s)
  {
    assert ([s] + t)[1..] == t;
  }

  lemma {:induction false} JoinedConcat(a: Slots, b: Slots)
    ensures Joined(a + b) == Joined(b) + Joined(a)
  {
    JoinedNone();
    hide Joined;
    if a == [] {
      assert a + b == b;
      assert Joined(b) + "" == Joined(b);
    } else {
      var t := a[1..];
      JoinedConcat(t, b);
      assert a == [a[0]] + t && a + b == [a[0]] + (t + b);
      JoinedCons(a[0], t + b);
      JoinedCons(a[0], t);
      AssociativeText(Joined(b), Joined(t), TextOf(a[0]));
    }
  }

  lemma JoinedNone()
    ensures Joined([]) == ""
  {
  }

  lemma JoinedSnoc(t: Slots, s: Slot)
    ensures Joined(t + [s]) == TextOf(s) + Joined(t)
  {
    JoinedConcat(t, [s]);
    JoinedCons(s, []);
    assert [s] + [] == [s];
    assert "" + TextOf(s) == TextOf(s);
  }

  lemma JoinedSplit(slots: Slots, k: nat)
    requires k <= |slots|
    ensures Joined(slots) == Joined(slots[k..]) + Joined(slots[..k])
  {
    hide Joined;
    JoinedConcat(slots[..k], slots[k..]);
    assert slots == slots[..k] + slots[k..];
  }

  /** Changing slot 0 changes only the end of the retained text. */
  lemma JoinedHead(slots: Slots, s: Slot)
    requires slots != []
    ensures Joined(slots[0 := s]) == Joined(slots[1..]) + TextOf(s)
    ensures Joined(slots) == Joined(slots[1..]) + TextOf(slots[0])
  {
    hide Joined;
    JoinedCons(s, slots[1..]);
    JoinedCons(slots[0], slots[1..]);
    assert slots == [slots[0]] + slots[1..];
    assert slots[0 := s] == [s] + slots[1..];
  }

  lemma JoinedAbsentHead(t: Slots)
    ensures Joined([Absent] + t) == Joined(t) == Joined([Holding("")] + t)
  {
    hide Joined;
    JoinedCons(Absent, t);
    JoinedCons(Holding(""), t);
    assert Joined(t) + "" == Joined(t);
  }

  lemma FullShift(t: Slots, last: Slot)
    ensures Joined(t + [last]) == TextOf(last) + Joined([Holding("")] + t)
  {
    hide Joined;
    JoinedSnoc(t, last);
    JoinedAbsentHead(t);
  }

  lemma GapShift(below: Slots, last: Slot)
    ensures Joined(below + [Absent] + [last]) == Joined([Holding("")] + (below + [last]))
  {
    hide Joined;
    JoinedSnoc(below + [Absent], last);
    JoinedSnoc(below, Absent);
    assert "" + Joined(below) == Joined(below);
    JoinedSnoc(below, last);
    JoinedAbsentHead(below + [last]);
  }

  /** A complete rotation loses at most the file in the last slot, and that only when
      another takes its place. */
  lemma RotationKeeps(slots: Slots)
    requires slots != []
    ensures Joined(slots) == Lost(slots) + Joined(Rotated(slots))
    ensures Rotated(slots)[0] == Holding("")
  {
    hide Joined;
    var max := |slots| - 1;
    var last := slots[max];
    if max > 0 && slots[max - 1] == Absent {
      GapShift(slots[..max - 1], last);
      assert slots == slots[..max - 1] + [Absent] + [last];
      assert Rotated(slots) == [Holding("")] + (slots[..max - 1] + [last]);
      assert "" + Joined(Rotated(slots)) == Joined(Rotated(slots));
    } else {
      FullShift(slots[..max], last);
      assert slots == slots[..max] + [last];
    }
  }

  /** From slot k up, a rotation that reached slot k holds what was in k and above,
      but for a file pushed out of the last slot. */
  lemma UpperPart(slots: Slots, k: nat)
    requires 0 < k < |slots|
    ensures IsSuffix(Joined(Partway(slots, k)[k..]), Joined(slots[k..]))
    ensures IsSuffix(Joined(Partway(slots, k)[k := Absent][k..]), Joined(slots[k..]))
  {
    hide Joined;
    var p := Partway(slots, k);
    var max := |slots| - 1;
    var upper := slots[k..];
    if k == max {
      assert p[k..] == upper == [slots[max]];
      assert p[k := Absent][k..] == [Absent];
      JoinedSnoc([], Absent);
      assert [] + [Absent] == [Absent];
      JoinedSnoc([], slots[max]);
      assert [] + [slots[max]] == upper;
      EmptySuffix(Joined(upper));
      JoinedNone();
    } else {
      assert p[k := Absent] == p;
      RotationKeeps(upper);
      RotatedUpper(slots, k);
      var above := Rotated(slots)[k + 1..];
      assert p[k..] == [Absent] + above;
      assert Rotated(upper) == [Holding("")] + above;
      JoinedAbsentHead(above);
    }
  }

  lemma EmptySuffix(s: string)
    ensures IsSuffix("", s) && IsSuffix(s, s)
  {
    assert s == s + "";
    assert s == "" + s;
  }

  lemma RotatedUpper(slots: Slots, k: nat)
    requires 0 < k < |slots| - 1
    ensures Rotated(slots[k..])[1..] == Rotated(slots)[k + 1..]
  {
    hide Rotated;
    var upper := slots[k..];
    forall j | 0 < j < |upper|
      ensures Rotated(upper)[j] == Rotated(slots)[j + k]
    {
      RotatedAt(upper, j);
      RotatedAt(slots, j + k);
    }
  }

  /** Giving up loses the text of slot 0 too; what is left ends where that text began. */
  lemma AbandonKeeps(slots: Slots, renames: Renames, k: nat)
    requires 0 < k < |slots|
    ensures IsSuffix(Joined(Abandoned(slots, renames, k)) + TextOf(slots[0]), Joined(slots))
    ensures Abandoned(slots, renames, k)[0] == Holding("")
  {
    UpperPart(slots, k);
    AbandonedParts(slots, renames, k);
    hide Joined;
    hide Partway;
    hide Abandoned;
    var removed := renames(k, 0) == Failed(true) || renames(k, 1) == Failed(true);
    var p := if removed then Partway(slots, k)[k := Absent] else Partway(slots, k);
    SplitSuffix(slots, p, k);
    TruncatedHead(p);
  }

  lemma AbandonedParts(slots: Slots, renames: Renames, k: nat)
    requires 0 < k < |slots|
    ensures var removed := renames(k, 0) == Failed(true) || renames(k, 1) == Failed(true);
            var p := if removed then Partway(slots, k)[k := Absent] else Partway(slots, k);
            p[..k] == slots[..k] && p[0] == slots[0] && Abandoned(slots, renames, k) == p[0 := Holding("")]
  {
    hide Rotated;
  }

  lemma TruncatedHead(p: Slots)
    requires p != []
    ensures Joined(p[0 := Holding("")]) + TextOf(p[0]) == Joined(p)
  {
    hide Joined;
    JoinedHead(p, Holding(""));
    assert Joined(p[1..]) + "" == Joined(p[1..]);
  }

  lemma SplitSuffix(slots: Slots, p: Slots, k: nat)
    requires k <= |slots| && k <= |p|
    requires p[..k] == slots[..k] && IsSuffix(Joined(p[k..]), Joined(slots[k..]))
    ensures IsSuffix(Joined(p), Joined(slots))
  {
    hide Joined;
    JoinedSplit(p, k);
    JoinedSplit(slots, k);
    SuffixAppend(Joined(p[k..]), Joined(slots[k..]), Joined(slots[..k]));
  }

  // Any run.

  datatype Message = Message(text: string, renames: Renames)

  function Run(slots: Slots, messages: seq<Message>, maxSize: nat): (r: Slots)
    requires slots != []
    ensures |r| == |slots|
    decreases |messages|
  {
    if messages == [] then slots
    else Run(Sunk(slots, messages[0].text, maxSize, messages[0].renames).0, messages[1..], maxSize)
  }

  /** No message of the run meets a slot it twice fails to fill. */
  predicate RenamesSucceed(slots: Slots, messages: seq<Message>, maxSize: nat)
    requires slots != []
    decreases |messages|
  {
    messages == [] ||
    (var (next, written) := Sunk(slots, messages[0].text, maxSize, messages[0].renames);
     written && RenamesSucceed(next, messages[1..], maxSize))
  }

  function Texts(messages: seq<Message>): string {
    if messages == [] then "" else messages[0].text + Texts(messages[1..])
  }

  /** The history a run ought to leave: texts written are appended; giving up takes
      back the text that was in slot 0. */
  function History(h: string, slots: Slots, messages: seq<Message>, maxSize: nat): string
    requires slots != []
    decreases |messages|
  {
    if messages == [] then h
    else
      var (next, written) := Sunk(slots, messages[0].text, maxSize, messages[0].renames);
      var dropped := |TextOf(slots[0])|;
      History(if written then h + messages[0].text else if dropped <= |h| then h[..|h| - dropped] else "",
              next, messages[1..], maxSize)
  }

  /** While all that is logged fits, the log only grows and all other slots stay as they were. */
  lemma {:induction false} NoRotationWhileItFits(slots: Slots, messages: seq<Message>, maxSize: nat)
    requires slots != [] && messages != [] && |TextOf(slots[0])| + |Texts(messages)| <= maxSize
    ensures Run(slots, messages, maxSize) == slots[0 := Holding(TextOf(slots[0]) + Texts(messages))]
    ensures RenamesSucceed(slots, messages, maxSize)
    decreases |messages|
  {
    var text, rest := messages[0].text, messages[1..];
    var next := slots[0 := Holding(TextOf(slots[0]) + text)];
    assert Sunk(slots, text, maxSize, messages[0].renames) == (next, true);
    hide Sunk;
    AssociativeText(TextOf(slots[0]), text, Texts(rest));
    if rest != [] {
      NoRotationWhileItFits(next, rest, maxSize);
    } else {
      assert TextOf(slots[0]) + text + "" == TextOf(slots[0]) + text;
    }
  }

  lemma SuffixTrans(x: string, y: string, z: string)
    requires IsSuffix(x, y) && IsSuffix(y, z)
    ensures IsSuffix(x, z)
  {
    var p :| y == p + x;
    var q :| z == q + y;
    assert z == (q + p) + x;
  }

  lemma SuffixAppend(x: string, s: string, t: string)
    requires IsSuffix(x, s)
    ensures IsSuffix(x + t, s + t)
  {
    var p :| s == p + x;
    assert s + t == p + (x + t);
  }

  /** One message: slot 0 stays within the limit or holds just that message, and the
      retained text stays a suffix of the history. */
  lemma SunkKeeps(slots: Slots, h: string, text: string, maxSize: nat, renames: Renames)
    requires slots != [] && IsSuffix(Joined(slots), h)
    ensures var (next, written) := Sunk(slots, text, maxSize, renames);
            && next[0].Holding?
            && (|next[0].text| <= maxSize || next[0].text == text)
            && (written ==> IsSuffix(Joined(next), h + text))
            && (!written ==> next[0].text == "" && |TextOf(slots[0])| <= |h|
                             && IsSuffix(Joined(next), h[..|h| - |TextOf(slots[0])|]))
  {
    hide Joined;
    hide Rotated;
    hide Abandoned;
    hide IsSuffix;
    hide StuckAt;
    var (next, written) := Sunk(slots, text, maxSize, renames);
    var head := TextOf(slots[0]);
    if |head| + |text| <= maxSize {
      AppendedHead(slots, text);
      SuffixAppend(Joined(slots), h, text);
    } else if written {
      RotatedThenWritten(slots, text);
      SuffixAppend(Joined(slots), h, text);
      SuffixTrans(Joined(next), Joined(slots) + text, h + text);
    } else {
      var k := StuckAt(slots, renames, |slots| - 1);
      AbandonKeeps(slots, renames, k);
      SuffixTrans(Joined(next) + head, Joined(slots), h);
      DropTail(Joined(next), head, h);
    }
  }

  lemma AppendedHead(slots: Slots, text: string)
    requires slots != []
    ensures Joined(slots[0 := Holding(TextOf(slots[0]) + text)]) == Joined(slots) + text
  {
    JoinedHead(slots, Holding(TextOf(slots[0]) + text));
    hide Joined;
    assert Joined(slots[1..]) + (TextOf(slots[0]) + text) == Joined(slots[1..]) + TextOf(slots[0]) + text;
  }

  lemma RotatedThenWritten(slots: Slots, text: string)
    requires slots != []
    ensures IsSuffix(Joined(Rotated(slots)[0 := Holding(text)]), Joined(slots) + text)
  {
    hide Joined;
    RotationKeeps(slots);
    var r := Rotated(slots);
    JoinedHead(r, Holding(text));
    assert Joined(r[1..]) + "" == Joined(r[1..]);
    SuffixAppend(Joined(r), Joined(slots), text);
  }

  lemma DropTail(x: string, t: string, h: string)
    requires IsSuffix(x + t, h)
    ensures |t| <= |h| && IsSuffix(x, h[..|h| - |t|])
  {
    var p :| h == p + (x + t);
    assert h[..|h| - |t|] == p + x;
  }

  /** Over any run, from any files (gaps included): the retained text is a suffix of the
      history; with renames that succeed, of everything written. */
  lemma {:induction false} RetainedIsSuffix(slots: Slots, h: string, messages: seq<Message>, maxSize: nat)
    requires slots != [] && IsSuffix(Joined(slots), h)
    ensures IsSuffix(Joined(Run(slots, messages, maxSize)), History(h, slots, messages, maxSize))
    ensures RenamesSucceed(slots, messages, maxSize) ==>
              History(h, slots, messages, maxSize) == h + Texts(messages)
    decreases |messages|
  {
    hide Joined;
    hide Sunk;
    hide IsSuffix;
    if messages == [] {
      assert h + "" == h;
    } else {
      var m := messages[0];
      var (next, written) := Sunk(slots, m.text, maxSize, m.renames);
      SunkKeeps(slots, h, m.text, maxSize, m.renames);
      if written {
        RetainedIsSuffix(next, h + m.text, messages[1..], maxSize);
        AssociativeText(h, m.text, Texts(messages[1..]));
      } else {
        RetainedIsSuffix(next, h[..|h| - |TextOf(slots[0])|], messages[1..], maxSize);
      }
    }
  }

  /** What the rotations of a run push out of the last slot, in order. */
  function LostTexts(slots: Slots, messages: seq<Message>, maxSize: nat): string
    requires slots != []
    decreases |messages|
  {
    if messages == [] then ""
    else
      var m := messages[0];
      (if |TextOf(slots[0])| + |m.text| <= maxSize then "" else Lost(slots))
      + LostTexts(Sunk(slots, m.text, maxSize, m.renames).0, messages[1..], maxSize)
  }

  /** Over a run with renames that succeed, from any files, nothing else is lost: what
      was there and what was written are those texts, then what is on disk. */
  lemma {:induction false} NothingElseLost(slots: Slots, messages: seq<Message>, maxSize: nat)
    requires slots != [] && RenamesSucceed(slots, messages, maxSize)
    ensures Joined(slots) + Texts(messages)
         == LostTexts(slots, messages, maxSize) + Joined(Run(slots, messages, maxSize))
    decreases |messages|
  {
    if messages == [] {
      assert Joined(slots) + "" == "" + Joined(slots);
    } else {
      var m, rest := messages[0], messages[1..];
      var next := Sunk(slots, m.text, maxSize, m.renames).0;
      var lost := if |TextOf(slots[0])| + |m.text| <= maxSize then "" else Lost(slots);
      OneSunk(slots, m.text, maxSize, m.renames);
      NothingElseLost(next, rest, maxSize);
      hide Joined, Sunk, Lost, Run;
      MoveText(Joined(slots), m.text, lost, Joined(next), Texts(rest),
               LostTexts(next, rest, maxSize), Joined(Run(next, rest, maxSize)));
    }
  }

  lemma OneSunk(slots: Slots, text: string, maxSize: nat, renames: Renames)
    requires slots != [] && Sunk(slots, text, maxSize, renames).1
    ensures var lost := if |TextOf(slots[0])| + |text| <= maxSize then "" else Lost(slots);
            Joined(slots) + text == lost + Joined(Sunk(slots, text, maxSize, renames).0)
  {
    hide Joined, Lost, Rotated, StuckAt, Abandoned;
    AppendedHead(slots, text);
    assert "" + (Joined(slots) + text) == Joined(slots) + text;
    RotationKeeps(slots);
    var r := Rotated(slots);
    AppendedHead(r, text);
    assert "" + text == text;
    AssociativeText(Lost(slots), Joined(r), text);
  }

  lemma AssociativeText(x: string, y: string, z: string)
    ensures (x + y) + z == x + (y + z)
  {
  }

  lemma MoveText(j: string, t: string, lost: string, n: string, ts: string, ls: string, z: string)
    requires j + t == lost + n && n + ts == ls + z
    ensures j + (t + ts) == (lost + ls) + z
  {
    AssociativeText(j, t, ts);
    AssociativeText(lost, n, ts);
    AssociativeText(lost, ls, z);
  }

  // The sink, on files by name.

  function SlotOf(files: map<string, string>, name: string): Slot {
    if name in files then Holding(files[name]) else Absent
  }

  function SlotsOf(files: map<string, string>, name: string, maxFiles: nat, folderSep: char): (r: Slots)
    ensures |r| == maxFiles + 1
  {
    seq(maxFiles + 1, i requires 0 <= i => SlotOf(files, CalcFilename(name, i, folderSep)))
  }

  /** A change to the file of one slot is a change to that slot and to no other. */
  lemma OneSlot(before: map<string, string>, after: map<string, string>,
                name: string, maxFiles: nat, folderSep: char, i: nat)
    requires i <= maxFiles
    requires forall f :: f != CalcFilename(name, i, folderSep) ==> SlotOf(after, f) == SlotOf(before, f)
    ensures SlotsOf(after, name, maxFiles, folderSep)
         == SlotsOf(before, name, maxFiles, folderSep)[i := SlotOf(after, CalcFilename(name, i, folderSep))]
  {
    forall j | 0 <= j <= maxFiles && j != i
      ensures SlotsOf(after, name, maxFiles, folderSep)[j] == SlotsOf(before, name, maxFiles, folderSep)[j]
    {
      if CalcFilename(name, j, folderSep) == CalcFilename(name, i, folderSep) {
        CalcFilenameInjective(name, j, i, folderSep);
      }
    }
  }

  /** Every name that is not a slot of this log has the file it had, or none. */
  ghost predicate Untouched(before: map<string, string>, after: map<string, string>,
                            name: string, maxFiles: nat, folderSep: char)
  {
    forall f :: (forall i: nat :: i <= maxFiles ==> f != CalcFilename(name, i, folderSep)) ==>
                  SlotOf(after, f) == SlotOf(before, f)
  }

  lemma UntouchedSelf(a: map<string, string>, name: string, maxFiles: nat, folderSep: char)
    ensures Untouched(a, a, name, maxFiles, folderSep)
  {
  }

  lemma UntouchedTrans(a: map<string, string>, b: map<string, string>, c: map<string, string>,
                       name: string, maxFiles: nat, folderSep: char)
    requires Untouched(a, b, name, maxFiles, folderSep) && Untouched(b, c, name, maxFiles, folderSep)
    ensures Untouched(a, c, name, maxFiles, folderSep)
  {
  }

  class RotatingFileSink {
    const baseFilename: string
    const maxSize: nat
    const maxFiles: nat
    const folderSep: char
    var currentSize: nat
    var files: map<string, string>

    ghost function Slots(): (r: Slots)
      reads this
      ensures r != []
    {
      SlotsOf(files, baseFilename, maxFiles, folderSep)
    }

    /** The log is open, and the counter is its real length. */
    ghost predicate Valid()
      reads this
    {
      baseFilename in files && currentSize == |files[baseFilename]|
    }

    lemma SlotAt(i: nat)
      requires i <= maxFiles
      ensures Slots()[i] == SlotOf(files, CalcFilename(baseFilename, i, folderSep))
    {
    }

    /** Files outside the log are as they were. */
    ghost predicate OthersUnchanged(before: map<string, string>)
      reads this
    {
      Untouched(before, files, baseFilename, maxFiles, folderSep)
    }

    constructor (baseFilename: string, maxSize: nat, maxFiles: nat, folderSep: char, disk: map<string, string>)
      ensures this.baseFilename == baseFilename && this.folderSep == folderSep
      ensures this.maxSize == maxSize && this.maxFiles == maxFiles
      ensures Valid()
      ensures files == if baseFilename in disk then disk else disk[baseFilename := ""]
    {
      this.baseFilename, this.folderSep := baseFilename, folderSep;
      this.maxSize, this.maxFiles := maxSize, maxFiles;
      // opened for appending, which creates the file when there is none
      files := if baseFilename in disk then disk else disk[baseFilename := ""];
      currentSize := if baseFilename in disk then |disk[baseFilename]| else 0;
    }

    method Reopen()
      modifies this`files
      ensures files == old(files)[baseFilename := ""]
      ensures Slots() == old(Slots())[0 := Holding("")]
      ensures OthersUnchanged(old(files))
    {
      ghost var before := files;
      files := files[baseFilename := ""];
      OneSlot(before, files, baseFilename, maxFiles, folderSep, 0);
      assert baseFilename == CalcFilename(baseFilename, 0, folderSep);
    }

    /** One try at renaming slot i - 1 to slot i, with the outcome it meets. */
    method RenameFile(i: nat, outcome: Attempt) returns (ok: bool)
      requires 0 < i <= maxFiles && Slots()[i - 1].Holding?
      modifies this`files
      ensures ok == outcome.Renamed?
      ensures Slots() == match outcome
                         case Renamed => old(Slots())[i := old(Slots())[i - 1]][i - 1 := Absent]
                         case Failed(removed) => if removed then old(Slots())[i := Absent] else old(Slots())
      ensures OthersUnchanged(old(files))
    {
      var source := CalcFilename(baseFilename, i - 1, folderSep);
      var target := CalcFilename(baseFilename, i, folderSep);
      assert source != target by {
        if source == target { CalcFilenameInjective(baseFilename, i - 1, i, folderSep); }
      }
      ghost var before := files;
      if outcome == Failed(false) { return false; }
      if outcome == Failed(true) {
        files := files - {target};
        OneSlot(before, files, baseFilename, maxFiles, folderSep, i);
        return false;
      }
      files := files[target := files[source]];
      OneSlot(before, files, baseFilename, maxFiles, folderSep, i);
      ghost var between := files;
      files := files - {source};
      OneSlot(between, files, baseFilename, maxFiles, folderSep, i - 1);
      ok := true;
    }

    method TryTwice(i: nat, renames: Renames) returns (ok: bool)
      requires 0 < i <= maxFiles && Slots()[i - 1].Holding?
      modifies this`files
      ensures ok == !GivesUp(old(Slots()), renames, i)
      ensures Slots() == if ok then old(Slots())[i := old(Slots())[i - 1]][i - 1 := Absent]
                         else if renames(i, 0) == Failed(true) || renames(i, 1) == Failed(true)
                         then old(Slots())[i := Absent]
                         else old(Slots())
      ensures OthersUnchanged(old(files))
    {
      hide SlotsOf;
      hide Untouched;
      ghost var first := files;
      ok := RenameFile(i, renames(i, 0));
      if !ok {
        ghost var before := files;
        ok := RenameFile(i, renames(i, 1));
        UntouchedTrans(first, before, files, baseFilename, maxFiles, folderSep);
      }
    }

    /** Moves every file up one slot, or gives up at the first slot it twice fails to
        fill; the log starts empty either way. */
    method Rotate(renames: Renames) returns (ok: bool)
      requires baseFilename in files
      modifies this
      ensures var k := StuckAt(old(Slots()), renames, maxFiles);
              && ok == (k == 0)
              && Slots() == (if ok then Rotated(old(Slots())) else Abandoned(old(Slots()), renames, k))
      ensures currentSize == if ok then old(currentSize) else 0
      ensures baseFilename in files && files[baseFilename] == ""
      ensures OthersUnchanged(old(files))
    {
      hide Partway;
      hide Rotated;
      hide SlotsOf;
      hide Untouched;
      ghost var was, first := Slots(), files;
      UntouchedSelf(files, baseFilename, maxFiles, folderSep);
      PartwayEnds(was);
      var i := maxFiles;
      while i > 0
        invariant 0 <= i <= maxFiles
        invariant Slots() == Partway(was, i)
        invariant StuckAt(was, renames, maxFiles) == StuckAt(was, renames, i)
        invariant currentSize == old(currentSize)
        invariant OthersUnchanged(first)
      {
        ghost var before := files;
        PartwayStep(was, i);
        SlotAt(i - 1);
        if CalcFilename(baseFilename, i - 1, folderSep) in files {
          var renamed := TryTwice(i, renames);
          UntouchedTrans(first, before, files, baseFilename, maxFiles, folderSep);
          if !renamed {
            before := files;
            Reopen();
            UntouchedTrans(first, before, files, baseFilename, maxFiles, folderSep);
            currentSize := 0;
            return false;
          }
        }
        i := i - 1;
      }
      ghost var before := files;
      Reopen();
      UntouchedTrans(first, before, files, baseFilename, maxFiles, folderSep);
      ok := true;
    }

    /** Logs one formatted message. ok is false where the source throws. */
    method SinkIt(formatted: string, renames: Renames) returns (ok: bool)
      requires Valid()
      modifies this
      ensures Valid()
      ensures (Slots(), ok) == Sunk(old(Slots()), formatted, maxSize, renames)
      ensures OthersUnchanged(old(files))
    {
      hide SlotsOf;
      hide StuckAt;
      hide Rotated;
      hide Abandoned;
      assert baseFilename == CalcFilename(baseFilename, 0, folderSep);
      SlotAt(0);
      currentSize := currentSize + |formatted|;
      if currentSize > maxSize {
        ok := Rotate(renames);
        if !ok { return; }
        currentSize := |formatted|;
        assert "" + formatted == formatted;
      }
      ghost var before := files;
      files := files[baseFilename := files[baseFilename] + formatted];
      OneSlot(before, files, baseFilename, maxFiles, folderSep, 0);
      ok := true;
    }
  }
}
