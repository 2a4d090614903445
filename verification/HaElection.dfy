/** What a single exchange of questions settles, whatever the two nodes' states. */
module HaElection {
  import opened HaStatus

  /** The question node a puts to node b when neither record changes meanwhile. */
  predicate Granted(a: Rep, b: Rep) {
    Allow(Wire(a.changeTime), a.status, b)
  }

  predicate SameMillis(a: Rep, b: Rep) {
    Millis(a.changeTime) == Millis(b.changeTime)
  }

  predicate WholeMillis(r: Rep) {
    r.changeTime % TICKS_PER_MS == 0
  }

  /** Both would be let through: only two idle nodes that changed within one
      millisecond, neither of them on its boundary. */
  predicate DoubleGrant(a: Rep, b: Rep) {
    a.status == b.status && a.status != Active && SameMillis(a, b) && !WholeMillis(a) && !WholeMillis(b)
  }

  /** Neither would be let through. */
  predicate NoGrant(a: Rep, b: Rep) {
    a.status == b.status && SameMillis(a, b)
    && (a.status == Active || (WholeMillis(a) && WholeMillis(b)))
  }

  /** Exactly one of the two nodes is let through, save for ties inside one
      millisecond, which cutting the time to milliseconds on the wire creates. */
  lemma ExactlyOneGrant(a: Rep, b: Rep)
    requires Known(a) && Known(b)
    ensures Granted(a, b) && Granted(b, a) <==> DoubleGrant(a, b)
    ensures !Granted(a, b) && !Granted(b, a) <==> NoGrant(a, b)
  {
    WireOrder(a.changeTime, b.changeTime);
    WireOrder(b.changeTime, a.changeTime);
  }

  /** A truncated time still compares the right way across milliseconds. */
  lemma WireOrder(s: nat, t: nat)
    ensures Wire(s) < t <==> Millis(s) < Millis(t) || (Millis(s) == Millis(t) && t % TICKS_PER_MS != 0)
  {
  }

  /** One undisturbed heartbeat of node a against node b: a's new record. */
  function Heartbeat(a: Rep, b: Rep, now: nat): (r: Rep)
    ensures r.status == if Granted(a, b) then Active else Standby
  {
    Answered(a, Granted(a, b), now, now)
  }

  /** A status outside the three is never let through and lets nobody through. */
  lemma UnknownIsRefused(a: Rep, b: Rep, now: nat)
    requires !Known(a) || !Known(b)
    ensures Heartbeat(a, b, now).status == Standby
  {
  }

  /** The comments' rules, read as who ends up active after both nodes beat once. */
  function Winner(a: Rep, b: Rep): (first: bool)
    requires Known(a) && Known(b)
  {
    match (a.status, b.status)
    case (Active, Active) => Millis(a.changeTime) > Millis(b.changeTime)
    case (Active, _) => true
    case (_, Active) => false
    case (Pending, Standby) => true
    case (Standby, Pending) => false
    case (_, _) => Wire(a.changeTime) < b.changeTime
  }

  /** Two standbys that changed at the same instant, on a millisecond boundary. */
  predicate Deadlocked(a: Rep, b: Rep) {
    a.status == Standby && b.status == Standby && a.changeTime == b.changeTime && WholeMillis(a)
  }

  predicate Settled(a: Rep, b: Rep) {
    (a.status == Active && b.status == Standby) || (a.status == Standby && b.status == Active)
  }

  /** From any pair of states whatever, one quiet beat of each node leaves
      exactly one of them active and the other on standby, unless the pair is
      deadlocked; and the clocks read during the beats do not matter. */
  lemma OneRoundSettles(a: Rep, b: Rep, t: nat, u: nat)
    requires Known(a) && Known(b)
    ensures var a1 := Heartbeat(a, b, t);
            var b1 := Heartbeat(b, a1, u);
            if Deadlocked(a, b) then a1.status == Standby && b1.status == Standby
            else Settled(a1, b1) && (a1.status == Active <==> Winner(a, b))
  {
    WireOrder(a.changeTime, b.changeTime);
    WireOrder(b.changeTime, a.changeTime);
  }

  /** A settled pair never changes again by itself, nor does a deadlocked one. */
  lemma SettledForever(a: Rep, b: Rep, t: nat)
    requires Settled(a, b) || Deadlocked(a, b)
    ensures Heartbeat(a, b, t) == a.(peerLive := t) && Heartbeat(b, a, t) == b.(peerLive := t)
  {
  }

  /** A quiet schedule: in each entry one node (a when `first`) completes a beat at `now`. */
  datatype Beat = Beat(first: bool, now: nat)

  function BeatAll(a: Rep, b: Rep, beats: seq<Beat>): (Rep, Rep)
    decreases |beats|
  {
    if beats == [] then (a, b)
    else if beats[0].first then BeatAll(Heartbeat(a, b, beats[0].now), b, beats[1..])
    else BeatAll(a, Heartbeat(b, a, beats[0].now), beats[1..])
  }

  predicate Agrees(a: Rep, b: Rep) {
    a.status == if Granted(a, b) then Active else Standby
  }

  /** Every quiet schedule in which each node beats at least once, however
      unevenly, ends settled, save exactly when it started from a deadlocked pair. */
  lemma {:induction false} AnyScheduleSettles(a: Rep, b: Rep, beats: seq<Beat>)
    requires Known(a) && Known(b)
    requires Agrees(a, b) || exists k :: 0 <= k < |beats| && beats[k].first
    requires Agrees(b, a) || exists k :: 0 <= k < |beats| && !beats[k].first
    ensures var (a1, b1) := BeatAll(a, b, beats); if Deadlocked(a, b) then Deadlocked(a1, b1) else Settled(a1, b1)
    decreases |beats|
  {
    WireOrder(a.changeTime, b.changeTime);
    WireOrder(b.changeTime, a.changeTime);
    if beats != [] {
      var now := beats[0].now;
      if beats[0].first {
        AnyScheduleSettles(Heartbeat(a, b, now), b, beats[1..]);
      } else {
        AnyScheduleSettles(a, Heartbeat(b, a, now), beats[1..]);
      }
    }
  }

  /** A time a is before b, as far as truncation to milliseconds leaves to tell. */
  predicate Elder(a: nat, b: nat) {
    Millis(a) < Millis(b) || (Millis(a) == Millis(b) && a % TICKS_PER_MS == 0 && b % TICKS_PER_MS != 0)
  }

  /** Node a, on standby again, stays so and b takes over, whichever beats first. */
  predicate HandsOver(a: Rep, b: Rep, t: nat, u: nat) {
    && Heartbeat(a, b, t).status == Standby && Heartbeat(b, Heartbeat(a, b, t), u).status == Active
    && Heartbeat(b, a, t).status == Active && Heartbeat(a, Heartbeat(b, a, t), u).status == Standby
  }

  /** Handing over by hand works exactly when the standby is the elder: it has been one
      since an earlier millisecond, or since the boundary of the one of the switch. */
  lemma SwitchHandsOver(a: Rep, b: Rep, now: nat, t: nat, u: nat)
    requires a.status == Active && b.status == Standby
    ensures HandsOver(Become(a, Standby, now), b, t, u) <==> Elder(b.changeTime, now)
  {
    WireOrder(now, b.changeTime);
    WireOrder(b.changeTime, now);
  }
}
