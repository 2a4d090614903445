/** The failure detector: what a node's record has heard, and when that makes it
    take over. */
module HaFailover {
  import opened HaStatus

  /** The record, and whether the detector has seen silence it has yet to act on. */
  datatype Node = Node(rep: Rep, due: bool)

  /** What happens to one node: its peer's question is answered, its own is answered,
      an operator switches it, or the detector looks at the clock and later acts on
      what it saw; between the two the record is free to change. */
  datatype Event =
    | Question(now: nat)
    | Answer(allowed: bool, now: nat)
    | Manual(now: nat)
    | Look(now: nat)
    | Act(now: nat)

  function Step(n: Node, e: Event, timeout: nat): Node {
    var r := n.rep;
    match e
    case Question(now) => n.(rep := r.(peerLive := now))
    case Answer(allowed, now) => n.(rep := Answered(r, allowed, now, now))
    case Manual(now) => if r.status == Active then n.(rep := Become(r, Standby, now)) else n
    case Look(now) => n.(due := now - r.peerLive > timeout)
    case Act(now) => if n.due then Node(Become(r, Active, now), false) else n
  }

  function After(n: Node, events: seq<Event>, timeout: nat): Node {
    if events == [] then n
    else Step(After(n, events[..|events| - 1], timeout), events[|events| - 1], timeout)
  }

  /** What the last event makes of the status: an answer decides it, a switch ends an
      active time, questions and looks leave it. */
  lemma StatusAfter(n: Node, events: seq<Event>, e: Event, timeout: nat)
    ensures var before, after := After(n, events, timeout).rep.status, After(n, events + [e], timeout).rep.status;
            match e
            case Answer(allowed, _) => after == if allowed then Active else Standby
            case Manual(_) => if before == Active then after == Standby else after == before
            case Act(_) => after == before || after == Active
            case _ => after == before
  {
    assert (events + [e])[..|events|] == events;
  }

  predicate Contact(e: Event) {
    e.Question? || e.Answer?
  }

  /** The peer has been silent since `since`: event k was the latest contact and
      happened then, or k is -1, there has been none, and the record started then. */
  predicate LastHeard(n: Node, events: seq<Event>, k: int, since: nat) {
    && -1 <= k < |events|
    && (if k == -1 then n.rep.peerLive == since else Contact(events[k]) && events[k].now == since)
    && forall j :: k < j < |events| ==> !Contact(events[j])
  }

  lemma {:induction false} LiveTimeIsLastContact(n: Node, events: seq<Event>, timeout: nat, k: int, since: nat)
    requires LastHeard(n, events, k, since)
    ensures After(n, events, timeout).rep.peerLive == since
  {
    if events != [] && k < |events| - 1 {
      assert !Contact(events[|events| - 1]);
      LiveTimeIsLastContact(n, events[..|events| - 1], timeout, k, since);
    }
  }

  lemma {:induction false} AfterConcat(n: Node, x: seq<Event>, y: seq<Event>, timeout: nat)
    ensures After(n, x + y, timeout) == After(After(n, x, timeout), y, timeout)
  {
    if y == [] {
      assert x + y == x;
    } else {
      var last := |y| - 1;
      AfterConcat(n, x, y[..last], timeout);
      assert (x + y)[..|x + y| - 1] == x + y[..last];
    }
  }

  /** Event k was the last to change the status, or k is -1 and none did. */
  predicate LastChange(n: Node, events: seq<Event>, timeout: nat, k: int) {
    && -1 <= k < |events|
    && (k >= 0 ==> Changes(n, events, timeout, k))
    && forall j :: k < j < |events| ==> !Changes(n, events, timeout, j)
  }

  predicate Changes(n: Node, events: seq<Event>, timeout: nat, j: nat)
    requires j < |events|
  {
    After(n, events[..j], timeout).rep.status != After(n, events[..j + 1], timeout).rep.status
  }

  /** Over any history the change time is the time of the last event that changed the
      status, whichever it changed to, or what it was when none did. */
  lemma {:induction false} ChangeTimeIsLastChange(n: Node, events: seq<Event>, timeout: nat, k: int)
    requires LastChange(n, events, timeout, k)
    ensures After(n, events, timeout).rep.changeTime == if k == -1 then n.rep.changeTime else events[k].now
  {
    if events != [] {
      var last := |events| - 1;
      var before := events[..last];
      assert events[..last + 1] == events;
      if k < last {
        assert !Changes(n, events, timeout, last);
        forall j | 0 <= j < last
          ensures Changes(n, before, timeout, j) == Changes(n, events, timeout, j)
        {
          assert before[..j] == events[..j] && before[..j + 1] == events[..j + 1];
        }
        ChangeTimeIsLastChange(n, before, timeout, k);
      }
    }
  }

  predicate NoDetector(events: seq<Event>) {
    forall j :: 0 <= j < |events| ==> !events[j].Look? && !events[j].Act?
  }

  lemma {:induction false} DueStays(n: Node, events: seq<Event>, timeout: nat)
    requires NoDetector(events)
    ensures After(n, events, timeout).due == n.due
  {
    if events != [] {
      assert !events[|events| - 1].Look? && !events[|events| - 1].Act?;
      DueStays(n, events[..|events| - 1], timeout);
    }
  }

  /** After any history, a look followed, whatever comes between, by its act leaves the
      node active exactly when the peer had been silent for more than the timeout at
      the look, or the node is active already: a contact in between stops nothing. */
  lemma TakesOverIffSilent(n: Node, events: seq<Event>, timeout: nat, k: int, since: nat,
                           now: nat, between: seq<Event>, t: nat)
    requires LastHeard(n, events, k, since) && NoDetector(between)
    ensures After(n, events + [Look(now)] + between + [Act(t)], timeout).rep.status == Active
       <==> now - since > timeout || After(n, events + [Look(now)] + between, timeout).rep.status == Active
  {
    var looked := events + [Look(now)];
    LiveTimeIsLastContact(n, events, timeout, k, since);
    assert looked[..|events|] == events;
    AfterConcat(n, looked, between, timeout);
    DueStays(After(n, looked, timeout), between, timeout);
    assert (looked + between + [Act(t)])[..|looked + between|] == looked + between;
  }

  /** A node that has heard from its peer, and even been denied, after the look takes
      over all the same. */
  lemma LateContactTakesOver(n: Node, events: seq<Event>, timeout: nat, k: int, since: nat,
                             now: nat, heard: nat, t: nat)
    requires LastHeard(n, events, k, since) && now - since > timeout
    ensures var all := events + [Look(now)] + [Question(heard), Answer(false, heard)] + [Act(t)];
            After(n, all, timeout).rep.status == Active
  {
    TakesOverIffSilent(n, events, timeout, k, since, now, [Question(heard), Answer(false, heard)], t);
  }

  predicate Harmless(e: Event) {
    e.Look? || e.Act? || e.Question?
  }

  /** Once the peer falls silent, the detector and the peer's questions alone keep a
      taken-over node active, whatever the clock reads. */
  lemma {:induction false} StaysActive(n: Node, quiet: seq<Event>, timeout: nat)
    requires n.rep.status == Active
    requires forall k :: 0 <= k < |quiet| ==> Harmless(quiet[k])
    ensures After(n, quiet, timeout).rep.status == Active
    ensures After(n, quiet, timeout).rep.changeTime == n.rep.changeTime
  {
    if quiet != [] {
      var last := |quiet| - 1;
      StaysActive(n, quiet[..last], timeout);
      assert Harmless(quiet[last]);
    }
  }

  /** The detector's rounds: at each time a look and its act. */
  function Rounds(times: seq<nat>): seq<Event> {
    if times == [] then [] else [Look(times[0]), Act(times[0])] + Rounds(times[1..])
  }

  lemma {:induction false} RoundsHarmless(times: seq<nat>)
    ensures forall k :: 0 <= k < |Rounds(times)| ==> Harmless(Rounds(times)[k]) && !Contact(Rounds(times)[k])
  {
    if times != [] {
      RoundsHarmless(times[1..]);
    }
  }

  lemma {:induction false} RoundsConcat(x: seq<nat>, y: seq<nat>)
    ensures Rounds(x + y) == Rounds(x) + Rounds(y)
  {
    if x == [] {
      assert x + y == y && Rounds(x) + Rounds(y) == Rounds(y);
    } else {
      hide Rounds;
      var now, rest := x[0], x[1..];
      RoundsConcat(rest, y);
      RoundsCons(now, rest);
      RoundsCons(now, rest + y);
      assert x == [now] + rest && x + y == [now] + (rest + y);
      Associative([Look(now), Act(now)], Rounds(rest), Rounds(y));
    }
  }

  lemma StillSilent(n: Node, events: seq<Event>, k: int, since: nat, times: seq<nat>)
    requires LastHeard(n, events, k, since)
    ensures LastHeard(n, events + Rounds(times), k, since)
  {
    RoundsHarmless(times);
    var all := events + Rounds(times);
    forall j | k < j < |all|
      ensures !Contact(all[j])
    {
      if j >= |events| {
        assert all[j] == Rounds(times)[j - |events|];
      }
    }
  }

  /** A look and its act change the status, if at all, at the time of the act. */
  lemma RoundActivates(n: Node, events: seq<Event>, timeout: nat, now: nat)
    ensures var a, z := After(n, events, timeout).rep, After(n, events + [Look(now), Act(now)], timeout).rep;
            z.status == Active ==> z.changeTime == if a.status != Active then now else a.changeTime
  {
    var looked, all := events + [Look(now)], events + [Look(now), Act(now)];
    assert looked[..|events|] == events && all[..|looked|] == looked;
  }

  /** A node whose peer falls silent at `since` is active after its first round later
      than since + timeout, and stays active through all further rounds; if that round
      is what activated it, it is active since then. */
  lemma FailoverCompletes(n: Node, events: seq<Event>, timeout: nat, k: int, since: nat, times: seq<nat>, m: nat)
    requires LastHeard(n, events, k, since)
    requires m < |times| && times[m] - since > timeout
    ensures After(n, events + Rounds(times), timeout).rep.status == Active
    ensures After(n, events + Rounds(times[..m]), timeout).rep.status != Active ==>
              After(n, events + Rounds(times), timeout).rep.changeTime == times[m]
  {
    var now, rest := times[m], times[m + 1..];
    var upto := events + Rounds(times[..m]);
    var round := [Look(now), Act(now)];
    StillSilent(n, events, k, since, times[..m]);
    TakesOverIffSilent(n, upto, timeout, k, since, now, [], now);
    RoundActivates(n, upto, timeout, now);
    RoundsHarmless(rest);
    RoundsConcat(times[..m], [now] + rest);
    RoundsCons(now, rest);
    assert times == times[..m] + ([now] + rest);
    hide *;
    assert upto + [Look(now)] + [] + [Act(now)] == upto + round;
    Associative(events, Rounds(times[..m]), round + Rounds(rest));
    Associative(upto, round, Rounds(rest));
    AfterConcat(n, upto + round, Rounds(rest), timeout);
    StaysActive(After(n, upto + round, timeout), Rounds(rest), timeout);
  }

  lemma RoundsCons(now: nat, rest: seq<nat>)
    ensures Rounds([now] + rest) == [Look(now), Act(now)] + Rounds(rest)
    ensures NoDetector([])
  {
    assert ([now] + rest)[1..] == rest;
  }

  lemma Associative(x: seq<Event>, y: seq<Event>, z: seq<Event>)
    ensures x + (y + z) == (x + y) + z
  {
  }
}
