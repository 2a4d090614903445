/** Two nodes, any number of heartbeat threads on each, and every interleaving
    of their unlocked questions, answers, losses, manual switches and failovers. */
module HaProtocol {
  import opened HaStatus
  import opened HaElection

  datatype Side = Left | Right

  function Other(i: Side): Side {
    if i == Left then Right else Left
  }

  /** One heartbeat thread: no call outstanding, its question on the way with
      the record it read, or the peer's answer on the way back. */
  datatype Rpc = Idle | Asked(time: nat, status: Status) | Replied(allowed: bool)

  datatype Node = Node(rep: Rep, links: seq<Rpc>)

  datatype Sys = Sys(left: Node, right: Node) {
    function At(i: Side): Node {
      if i == Left then left else right
    }

    function Put(i: Side, n: Node): (s: Sys)
      ensures s.At(i) == n && s.At(Other(i)) == At(Other(i))
    {
      if i == Left then Sys(n, right) else Sys(left, n)
    }

    predicate DoubleActive() {
      left.rep.status == Active && right.rep.status == Active
    }
  }

  datatype Step =
    | Ask(i: Side, k: nat)
    | Reply(i: Side, k: nat, now: nat)
    | Apply(i: Side, k: nat, now: nat)
    | Lose(i: Side, k: nat)
    | Manual(i: Side, now: nat)
    | PeerLost(i: Side, now: nat)

  predicate Enabled(s: Sys, e: Step) {
    match e
    case Ask(i, k) => k < |s.At(i).links| && s.At(i).links[k].Idle?
    case Reply(i, k, _) => k < |s.At(i).links| && s.At(i).links[k].Asked?
    case Apply(i, k, _) => k < |s.At(i).links| && s.At(i).links[k].Replied?
    case Lose(i, k) => k < |s.At(i).links| && !s.At(i).links[k].Idle?
    case Manual(i, _) => s.At(i).rep.status == Active
    case PeerLost(_, _) => true
  }

  function Do(s: Sys, e: Step): Sys
    requires Enabled(s, e)
  {
    match e
    case Ask(i, k) =>
      var n := s.At(i);
      s.Put(i, n.(links := n.links[k := Asked(Wire(n.rep.changeTime), n.rep.status)]))
    case Reply(i, k, now) =>
      var n, p := s.At(i), s.At(Other(i));
      var q := n.links[k];
      s.Put(i, n.(links := n.links[k := Replied(Allow(q.time, q.status, p.rep))]))
       .Put(Other(i), p.(rep := p.rep.(peerLive := now)))
    case Apply(i, k, now) =>
      var n := s.At(i);
      s.Put(i, Node(Answered(n.rep, n.links[k].allowed, now, now), n.links[k := Idle]))
    case Lose(i, k) =>
      var n := s.At(i);
      s.Put(i, n.(links := n.links[k := Idle]))
    case Manual(i, now) =>
      var n := s.At(i);
      s.Put(i, n.(rep := Become(n.rep, Standby, now)))
    case PeerLost(i, now) =>
      var n := s.At(i);
      s.Put(i, n.(rep := Become(n.rep, Active, now)))
  }

  predicate Runs(s: Sys, steps: seq<Step>)
    decreases |steps|
  {
    steps == [] || (Enabled(s, steps[0]) && Runs(Do(s, steps[0]), steps[1..]))
  }

  function End(s: Sys, steps: seq<Step>): Sys
    requires Runs(s, steps)
    decreases |steps|
  {
    if steps == [] then s else End(Do(s, steps[0]), steps[1..])
  }

  // ----- What the times of a record say -------------------------------------

  /** Node i keeps its status throughout the run. */
  predicate SameStatus(s: Sys, steps: seq<Step>, i: Side)
    requires Runs(s, steps)
    decreases |steps|
  {
    steps == [] || (Do(s, steps[0]).At(i).rep.status == s.At(i).rep.status && SameStatus(Do(s, steps[0]), steps[1..], i))
  }

  predicate Hears(e: Step, i: Side) {
    (e.Apply? && e.i == i) || (e.Reply? && e.i == Other(i))
  }

  predicate Deaf(steps: seq<Step>, i: Side) {
    forall k :: 0 <= k < |steps| ==> !Hears(steps[k], i)
  }

  lemma {:induction false} TimesKept(s: Sys, steps: seq<Step>, i: Side)
    requires Runs(s, steps)
    ensures SameStatus(s, steps, i) ==> End(s, steps).At(i).rep.changeTime == s.At(i).rep.changeTime
    ensures Deaf(steps, i) ==> End(s, steps).At(i).rep.peerLive == s.At(i).rep.peerLive
    decreases |steps|
  {
    if steps != [] {
      TimesKept(Do(s, steps[0]), steps[1..], i);
      assert Deaf(steps, i) ==> !Hears(steps[0], i) && Deaf(steps[1..], i);
    }
  }

  /** After any run the change time of a node is the time of the step that last changed
      its status, and its live time that of the step that last heard from the peer. */
  lemma TimesAfter(s: Sys, x: seq<Step>, e: Step, y: seq<Step>, i: Side)
    requires Runs(s, x) && Enabled(End(s, x), e) && Runs(Do(End(s, x), e), y)
    ensures Runs(s, x + ([e] + y))
    ensures var a, b := End(s, x), Do(End(s, x), e);
            && (a.At(i).rep.status != b.At(i).rep.status && SameStatus(b, y, i) ==>
                  (e.Apply? || e.Manual? || e.PeerLost?) && End(s, x + ([e] + y)).At(i).rep.changeTime == e.now)
            && (Hears(e, i) && Deaf(y, i) ==> End(s, x + ([e] + y)).At(i).rep.peerLive == e.now)
  {
    TimesKept(Do(End(s, x), e), y, i);
    RunOne(End(s, x), e);
    RunsConcat(End(s, x), [e], y);
    RunsConcat(s, x, [e] + y);
  }

  // ----- A contest with a winner ------------------------------------------

  /** Neither an operator nor the failure detector interferes. */
  predicate Undisturbed(steps: seq<Step>) {
    forall k :: 0 <= k < |steps| ==> !steps[k].Manual? && !steps[k].PeerLost?
  }

  predicate AllIdle(links: seq<Rpc>) {
    forall k :: 0 <= k < |links| ==> links[k] == Idle
  }

  /** Each node has a heartbeat link, and no call is outstanding. */
  predicate IdlePair(s: Sys) {
    && |s.left.links| > 0 && AllIdle(s.left.links)
    && |s.right.links| > 0 && AllIdle(s.right.links)
  }

  /** Of two records one is let through by the other and not the other way round. */
  predicate Beats(w: Rep, l: Rep) {
    Known(w) && Known(l) && Granted(w, l) && !Granted(l, w)
  }

  predicate SameRecord(a: Rep, b: Rep) {
    a.status == b.status && a.changeTime == b.changeTime
  }

  /** Still as w, or become active. */
  predicate WinnerRep(r: Rep, w: Rep) {
    SameRecord(r, w) || (w.status != Active && r.status == Active)
  }

  /** Still as l, or gone on standby. */
  predicate LoserRep(r: Rep, l: Rep) {
    SameRecord(r, l) || (l.status != Standby && r.status == Standby)
  }

  predicate WinnerLink(c: Rpc, w: Rep) {
    match c
    case Idle => true
    case Asked(t, st) => (st == w.status && t == Wire(w.changeTime)) || (w.status != Active && st == Active)
    case Replied(allowed) => allowed
  }

  predicate LoserLink(c: Rpc, l: Rep) {
    match c
    case Idle => true
    case Asked(t, st) => (st == l.status && t == Wire(l.changeTime)) || (l.status != Standby && st == Standby)
    case Replied(allowed) => !allowed
  }

  predicate WinnerNode(n: Node, w: Rep) {
    WinnerRep(n.rep, w) && forall k :: 0 <= k < |n.links| ==> WinnerLink(n.links[k], w)
  }

  predicate LoserNode(n: Node, l: Rep) {
    LoserRep(n.rep, l) && forall k :: 0 <= k < |n.links| ==> LoserLink(n.links[k], l)
  }

  /** The winner's side started from record w, the other from l. */
  predicate Contest(s: Sys, winner: Side, w: Rep, l: Rep) {
    WinnerNode(s.At(winner), w) && LoserNode(s.At(Other(winner)), l)
  }

  /** Whatever has become of the loser, it lets the winner through, ... */
  lemma WinnerLetThrough(c: Rpc, r: Rep, w: Rep, l: Rep)
    requires Beats(w, l) && c.Asked? && WinnerLink(c, w) && LoserRep(r, l)
    ensures Allow(c.time, c.status, r)
  {
  }

  /** ... and whatever has become of the winner, it refuses the loser. */
  lemma LoserRefused(c: Rpc, r: Rep, w: Rep, l: Rep)
    requires Beats(w, l) && c.Asked? && LoserLink(c, l) && WinnerRep(r, w)
    ensures !Allow(c.time, c.status, r)
  {
  }

  /** Link k of node n replaced by c, with record r. */
  function WithLink(n: Node, r: Rep, k: nat, c: Rpc): Node
    requires k < |n.links|
  {
    Node(r, n.links[k := c])
  }

  lemma WinnerMoves(n: Node, r: Rep, k: nat, c: Rpc, w: Rep)
    requires WinnerNode(n, w) && k < |n.links| && WinnerRep(r, w) && WinnerLink(c, w)
    ensures WinnerNode(WithLink(n, r, k, c), w)
  {
    hide WinnerRep, WinnerLink;
  }

  lemma LoserMoves(n: Node, r: Rep, k: nat, c: Rpc, l: Rep)
    requires LoserNode(n, l) && k < |n.links| && LoserRep(r, l) && LoserLink(c, l)
    ensures LoserNode(WithLink(n, r, k, c), l)
  {
    hide LoserRep, LoserLink;
  }

  /** A step of the winner's side. */
  lemma WinnerStep(s: Sys, winner: Side, w: Rep, l: Rep, e: Step)
    requires Beats(w, l) && Contest(s, winner, w, l)
    requires Enabled(s, e) && !e.Manual? && !e.PeerLost? && e.i == winner
    ensures Contest(Do(s, e), winner, w, l)
  {
    hide Beats, WinnerLink, LoserLink;
    var n, p := s.At(winner), s.At(Other(winner));
    match e
    case Ask(_, k) =>
      var c := Asked(Wire(n.rep.changeTime), n.rep.status);
      WinnerAsks(n.rep, w);
      WinnerMoves(n, n.rep, k, c, w);
    case Reply(_, k, now) =>
      assert WinnerLink(n.links[k], w);
      WinnerLetThrough(n.links[k], p.rep, w, l);
      WinnerAnswers(w, l);
      WinnerMoves(n, n.rep, k, Replied(true), w);
    case Apply(_, k, now) =>
      assert WinnerLink(n.links[k], w);
      WinnerAnswered(n.links[k], w);
      WinnerAnswers(w, l);
      WinnerMoves(n, Answered(n.rep, true, now, now), k, Idle, w);
    case Lose(_, k) =>
      WinnerAnswers(w, l);
      WinnerMoves(n, n.rep, k, Idle, w);
  }

  lemma WinnerAsks(r: Rep, w: Rep)
    requires WinnerRep(r, w)
    ensures WinnerLink(Asked(Wire(r.changeTime), r.status), w)
  {
  }

  lemma LoserAsks(r: Rep, l: Rep)
    requires LoserRep(r, l)
    ensures LoserLink(Asked(Wire(r.changeTime), r.status), l)
  {
  }

  lemma WinnerAnswers(w: Rep, l: Rep)
    ensures WinnerLink(Idle, w) && WinnerLink(Replied(true), w)
    ensures LoserLink(Idle, l) && LoserLink(Replied(false), l)
  {
  }

  lemma WinnerAnswered(c: Rpc, w: Rep)
    ensures WinnerLink(c, w) && c.Replied? ==> c.allowed
    ensures LoserLink(c, w) && c.Replied? ==> !c.allowed
  {
  }

  /** A step of the loser's side. */
  lemma LoserStep(s: Sys, winner: Side, w: Rep, l: Rep, e: Step)
    requires Beats(w, l) && Contest(s, winner, w, l)
    requires Enabled(s, e) && !e.Manual? && !e.PeerLost? && e.i == Other(winner)
    ensures Contest(Do(s, e), winner, w, l)
  {
    hide Beats, WinnerLink, LoserLink;
    var n, p := s.At(Other(winner)), s.At(winner);
    match e
    case Ask(_, k) =>
      var c := Asked(Wire(n.rep.changeTime), n.rep.status);
      LoserAsks(n.rep, l);
      LoserMoves(n, n.rep, k, c, l);
    case Reply(_, k, now) =>
      assert LoserLink(n.links[k], l);
      LoserRefused(n.links[k], p.rep, w, l);
      WinnerAnswers(w, l);
      LoserMoves(n, n.rep, k, Replied(false), l);
    case Apply(_, k, now) =>
      assert LoserLink(n.links[k], l);
      WinnerAnswered(n.links[k], l);
      WinnerAnswers(w, l);
      LoserMoves(n, Answered(n.rep, false, now, now), k, Idle, l);
    case Lose(_, k) =>
      WinnerAnswers(w, l);
      LoserMoves(n, n.rep, k, Idle, l);
  }

  /** In every undisturbed run from a contest, over any number of links, losses and
      clock readings, the winner keeps its record or becomes active, the loser keeps
      its record or goes on standby. */
  lemma {:induction false} ContestRun(s: Sys, winner: Side, w: Rep, l: Rep, steps: seq<Step>)
    requires Beats(w, l) && Contest(s, winner, w, l) && Runs(s, steps) && Undisturbed(steps)
    ensures Contest(End(s, steps), winner, w, l)
    decreases |steps|
  {
    hide Beats, Contest, Do, Enabled;
    if steps != [] {
      assert !steps[0].Manual? && !steps[0].PeerLost?;
      if steps[0].i == winner {
        WinnerStep(s, winner, w, l, steps[0]);
      } else {
        LoserStep(s, winner, w, l, steps[0]);
      }
      ContestRun(Do(s, steps[0]), winner, w, l, steps[1..]);
    }
  }

  lemma ContestStarts(s: Sys, winner: Side)
    requires IdlePair(s)
    ensures Contest(s, winner, s.At(winner).rep, s.At(Other(winner)).rep)
  {
  }

  /** The winner of an idle pair, from any two records, at the end of any undisturbed run. */
  lemma WinnerStays(s: Sys, winner: Side, steps: seq<Step>)
    requires IdlePair(s) && Beats(s.At(winner).rep, s.At(Other(winner)).rep)
    requires Runs(s, steps) && Undisturbed(steps)
    ensures WinnerRep(End(s, steps).At(winner).rep, s.At(winner).rep)
    ensures LoserRep(End(s, steps).At(Other(winner)).rep, s.At(Other(winner)).rep)
  {
    ContestStarts(s, winner);
    ContestRun(s, winner, s.At(winner).rep, s.At(Other(winner)).rep, steps);
  }

  // ----- Two standbys that refuse each other --------------------------------

  /** Two standbys, neither of which ever lets the other through. */
  predicate Stuck(s: Sys, t: nat) {
    && t % TICKS_PER_MS == 0
    && StuckNode(s.left, t) && StuckNode(s.right, t)
  }

  predicate StuckNode(n: Node, t: nat) {
    && n.rep.status == Standby && n.rep.changeTime == t
    && forall k :: 0 <= k < |n.links| ==>
         match n.links[k]
         case Idle => true
         case Asked(u, st) => st == Standby && u == t
         case Replied(allowed) => !allowed
  }

  lemma {:induction false} StuckRun(s: Sys, t: nat, steps: seq<Step>)
    requires Stuck(s, t) && Runs(s, steps) && Undisturbed(steps)
    ensures Stuck(End(s, steps), t)
    decreases |steps|
  {
    if steps != [] {
      assert !steps[0].Manual? && !steps[0].PeerLost?;
      StuckStep(s, t, steps[0]);
      hide Stuck, Do, Enabled;
      StuckRun(Do(s, steps[0]), t, steps[1..]);
    }
  }

  lemma StuckStep(s: Sys, t: nat, e: Step)
    requires Stuck(s, t) && Enabled(s, e) && !e.Manual? && !e.PeerLost?
    ensures Stuck(Do(s, e), t)
  {
    assert Wire(t) == t;
  }

  // ----- Undisturbed runs with two active nodes -----------------------------

  ghost predicate SplitBrainReachable(s: Sys) {
    exists steps :: Runs(s, steps) && Undisturbed(steps) && End(s, steps).DoubleActive()
  }

  lemma {:induction false} RunsConcat(s: Sys, x: seq<Step>, y: seq<Step>)
    requires Runs(s, x) && Runs(End(s, x), y)
    ensures Runs(s, x + y) && End(s, x + y) == End(End(s, x), y)
    decreases |x|
  {
    if x == [] {
      assert x + y == y;
    } else {
      RunsConcat(Do(s, x[0]), x[1..], y);
      assert (x + y)[1..] == x[1..] + y;
    }
  }

  lemma RunOne(s: Sys, e: Step)
    requires Enabled(s, e)
    ensures Runs(s, [e]) && End(s, [e]) == Do(s, e)
  {
    assert [e][1..] == [];
  }

  /** One more undisturbed step at the end of a run. */
  lemma Next(s: Sys, steps: seq<Step>, e: Step) returns (longer: seq<Step>, z: Sys)
    requires Runs(s, steps) && Undisturbed(steps) && Enabled(End(s, steps), e) && !e.Manual? && !e.PeerLost?
    ensures Runs(s, longer) && Undisturbed(longer) && z == End(s, longer) == Do(End(s, steps), e)
  {
    RunOne(End(s, steps), e);
    RunsConcat(s, steps, [e]);
    longer, z := steps + [e], Do(End(s, steps), e);
  }

  /** Both nodes put a question on link 0, both are answered, both act. */
  lemma Race(s: Sys, t: nat, u: nat) returns (steps: seq<Step>)
    requires |s.left.links| > 0 && |s.right.links| > 0 && s.left.links[0] == Idle && s.right.links[0] == Idle
    ensures Runs(s, steps) && Undisturbed(steps)
    ensures var z := End(s, steps);
            && z.left.rep == Answered(s.left.rep, Granted(s.left.rep, s.right.rep), t, t)
            && z.right.rep == Answered(s.right.rep, Granted(s.right.rep, s.left.rep), u, u)
            && z.left.links == s.left.links && z.right.links == s.right.links
  {
    var z;
    steps, z := Next(s, [], Ask(Left, 0));
    steps, z := Next(s, steps, Ask(Right, 0));
    steps, z := Next(s, steps, Reply(Left, 0, t));
    steps, z := Next(s, steps, Reply(Right, 0, u));
    steps, z := Next(s, steps, Apply(Left, 0, t));
    steps, z := Next(s, steps, Apply(Right, 0, u));
  }

  /** From an idle pair of any two records that are not both active, an undisturbed run
      can end with two active nodes exactly when neither beats the other and the pair is
      not deadlocked. */
  lemma SplitBrainIff(s: Sys)
    requires IdlePair(s) && Known(s.left.rep) && Known(s.right.rep) && !s.DoubleActive()
    ensures SplitBrainReachable(s) <==>
            Granted(s.left.rep, s.right.rep) == Granted(s.right.rep, s.left.rep) && !Deadlocked(s.left.rep, s.right.rep)
  {
    var l, r := s.left.rep, s.right.rep;
    forall steps | Runs(s, steps) && Undisturbed(steps) && End(s, steps).DoubleActive()
      ensures Granted(l, r) == Granted(r, l) && !Deadlocked(l, r)
    {
      hide Granted, Runs, End, Undisturbed, Deadlocked, IdlePair;
      if Deadlocked(l, r) {
        DeadlockedStays(s, steps);
      } else if Granted(l, r) && !Granted(r, l) {
        WinnerStays(s, Left, steps);
      } else if Granted(r, l) && !Granted(l, r) {
        WinnerStays(s, Right, steps);
      }
    }
    if Granted(l, r) == Granted(r, l) && !Deadlocked(l, r) {
      var steps := TiedRace(s);
    }
  }

  lemma DeadlockedStays(s: Sys, steps: seq<Step>)
    requires IdlePair(s) && Deadlocked(s.left.rep, s.right.rep) && Runs(s, steps) && Undisturbed(steps)
    ensures !End(s, steps).DoubleActive()
  {
    assert Stuck(s, s.left.rep.changeTime);
    StuckRun(s, s.left.rep.changeTime, steps);
  }

  /** Neither beats the other: when both are let through one race makes both active;
      when neither is, the first leaves both on standby and the second, of those, makes
      both active. */
  lemma TiedRace(s: Sys) returns (steps: seq<Step>)
    requires IdlePair(s) && Known(s.left.rep) && Known(s.right.rep) && !s.DoubleActive()
    requires Granted(s.left.rep, s.right.rep) == Granted(s.right.rep, s.left.rep)
    requires !Deadlocked(s.left.rep, s.right.rep)
    ensures Runs(s, steps) && Undisturbed(steps) && End(s, steps).DoubleActive()
  {
    ExactlyOneGrant(s.left.rep, s.right.rep);
    hide Granted;
    if Granted(s.left.rep, s.right.rep) {
      steps := Race(s, 1, 1);
    } else {
      steps := TwoRaces(s);
    }
  }

  lemma TwoRaces(s: Sys) returns (steps: seq<Step>)
    requires IdlePair(s) && s.left.rep.status != Standby && s.right.rep.status != Standby
    requires !Granted(s.left.rep, s.right.rep) && !Granted(s.right.rep, s.left.rep)
    ensures Runs(s, steps) && Undisturbed(steps) && End(s, steps).DoubleActive()
  {
    hide Granted, Runs, End, Undisturbed;
    var first := Race(s, 1, 1);
    var z := End(s, first);
    TiedAtOne(z.left.rep, z.right.rep);
    var second := Race(z, 1, 1);
    UndisturbedConcat(first, second);
    RunsConcat(s, first, second);
    steps := first + second;
  }

  lemma TiedAtOne(l: Rep, r: Rep)
    requires l.status == r.status == Standby && l.changeTime == r.changeTime == 1
    ensures Granted(l, r) && Granted(r, l)
  {
  }

  lemma UndisturbedConcat(x: seq<Step>, y: seq<Step>)
    requires Undisturbed(x) && Undisturbed(y)
    ensures Undisturbed(x + y)
  {
  }

  // ----- Two active nodes that find each other --------------------------------

  ghost predicate BothDemotedReachable(s: Sys) {
    exists steps :: Runs(s, steps) && Undisturbed(steps)
                    && End(s, steps).left.rep.status == End(s, steps).right.rep.status == Standby
  }

  /** Two active nodes can demote each other, and end both on standby, exactly when they
      were activated within one millisecond. */
  lemma BothDemotedIff(s: Sys)
    requires IdlePair(s) && s.DoubleActive()
    ensures BothDemotedReachable(s) <==> Millis(s.left.rep.changeTime) == Millis(s.right.rep.changeTime)
  {
    var l, r := s.left.rep, s.right.rep;
    forall steps | Runs(s, steps) && Undisturbed(steps)
                   && End(s, steps).left.rep.status == End(s, steps).right.rep.status == Standby
      ensures Millis(l.changeTime) == Millis(r.changeTime)
    {
      if Millis(l.changeTime) != Millis(r.changeTime) {
        LaterStaysActive(s, if Millis(l.changeTime) > Millis(r.changeTime) then Left else Right, steps);
      }
    }
    if Millis(l.changeTime) == Millis(r.changeTime) {
      NoGrantInOneMilli(l, r);
      var steps := Race(s, 1, 1);
    }
  }

  /** Otherwise the one activated in the later millisecond stays active since the same
      time, and the other is active since its own time or on standby, in every run. */
  lemma LaterStaysActive(s: Sys, later: Side, steps: seq<Step>)
    requires IdlePair(s) && s.DoubleActive() && Runs(s, steps) && Undisturbed(steps)
    requires Millis(s.At(later).rep.changeTime) > Millis(s.At(Other(later)).rep.changeTime)
    ensures SameRecord(End(s, steps).At(later).rep, s.At(later).rep)
    ensures SameRecord(End(s, steps).At(Other(later)).rep, s.At(Other(later)).rep)
         || End(s, steps).At(Other(later)).rep.status == Standby
  {
    var a, b := s.At(later).rep, s.At(Other(later)).rep;
    WireOrder(a.changeTime, b.changeTime);
    WireOrder(b.changeTime, a.changeTime);
    assert Wire(a.changeTime) > b.changeTime && Wire(b.changeTime) <= a.changeTime;
    hide Runs, End, Undisturbed, IdlePair;
    WinnerStays(s, later, steps);
  }

  lemma NoGrantInOneMilli(l: Rep, r: Rep)
    requires l.status == r.status == Active && Millis(l.changeTime) == Millis(r.changeTime)
    ensures !Granted(l, r) && !Granted(r, l)
  {
  }

  /** Within one millisecond they need not heal at all: a run can demote both, and
      another make both active again within one millisecond, and so on for ever. */
  lemma MayNeverHeal(s: Sys) returns (down: seq<Step>, up: seq<Step>)
    requires IdlePair(s) && s.DoubleActive() && Millis(s.left.rep.changeTime) == Millis(s.right.rep.changeTime)
    ensures Runs(s, down) && Undisturbed(down)
    ensures var m := End(s, down);
            && m.left.rep.status == m.right.rep.status == Standby
            && Runs(m, up) && Undisturbed(up)
            && var z := End(m, up);
               IdlePair(z) && z.DoubleActive() && Millis(z.left.rep.changeTime) == Millis(z.right.rep.changeTime)
  {
    NoGrantInOneMilli(s.left.rep, s.right.rep);
    hide Granted, Runs, End, Undisturbed;
    down := Race(s, 1, 1);
    var m := End(s, down);
    TiedAtOne(m.left.rep, m.right.rep);
    up := Race(m, 1, 1);
  }

  // ----- Election at start-up ---------------------------------------------

  /** Left started at a, Right at b; neither has asked anything yet. */
  predicate Booted(s: Sys, a: nat, b: nat) {
    && s.left.rep.status == Pending && s.left.rep.changeTime == a
    && s.right.rep.status == Pending && s.right.rep.changeTime == b
    && IdlePair(s)
  }

  lemma ElderBeats(x: Rep, y: Rep)
    requires x.status == y.status && (x.status == Pending || x.status == Standby)
    ensures Elder(x.changeTime, y.changeTime) <==> Beats(x, y)
  {
    WireOrder(x.changeTime, y.changeTime);
    WireOrder(y.changeTime, x.changeTime);
  }

  /** In every undisturbed run the elder is never demoted and the younger never
      activated, over any number of links, losses and clock readings. */
  lemma ElderWins(s: Sys, a: nat, b: nat, steps: seq<Step>)
    requires Booted(s, a, b) && Runs(s, steps) && Undisturbed(steps)
    ensures Elder(a, b) ==> End(s, steps).left.rep.status != Standby && End(s, steps).right.rep.status != Active
    ensures Elder(b, a) ==> End(s, steps).right.rep.status != Standby && End(s, steps).left.rep.status != Active
  {
    hide Runs, End, Undisturbed, Elder, Beats, IdlePair;
    ElderBeats(s.left.rep, s.right.rep);
    ElderBeats(s.right.rep, s.left.rep);
    if Elder(a, b) {
      WinnerStays(s, Left, steps);
    }
    if Elder(b, a) {
      WinnerStays(s, Right, steps);
    }
  }

  /** The exact condition under which an undisturbed start can end with two
      active nodes: they started within the same millisecond, and the boundary
      of that millisecond does not tell them apart. */
  lemma SplitBrainAtStart(s: Sys, a: nat, b: nat)
    requires Booted(s, a, b)
    ensures SplitBrainReachable(s) <==> !Elder(a, b) && !Elder(b, a)
  {
    hide SplitBrainReachable, Elder, IdlePair;
    SplitBrainIff(s);
    ElderBeats(s.left.rep, s.right.rep);
    ElderBeats(s.right.rep, s.left.rep);
  }

  // ----- Operation: switches by hand and failover --------------------------

  predicate Potential(n: Node) {
    n.rep.status == Active || exists k :: 0 <= k < |n.links| && n.links[k] == Replied(true)
  }

  /** A change of node i at `now` falls in another millisecond than the peer's last change. */
  predicate Apart(s: Sys, i: Side, now: nat) {
    Millis(now) != Millis(s.At(Other(i)).rep.changeTime)
  }

  /** The conditions of use under which a pair with one link a side is safe for ever: a
      node goes on standby in another millisecond than its peer last changed in, an
      operator switches a node only while its own heartbeat is not waiting for an
      answer, and the failure detector fires only when the peer neither is nor is
      about to become active. */
  predicate Disciplined(s: Sys, e: Step) {
    match e
    case Apply(i, k, now) =>
      k < |s.At(i).links| && (s.At(i).links[k] == Replied(true) || s.At(i).rep.status == Standby || Apart(s, i, now))
    case Manual(i, now) => Apart(s, i, now) && (forall k :: 0 <= k < |s.At(i).links| ==> s.At(i).links[k] == Idle)
    case PeerLost(i, now) => !Potential(s.At(Other(i)))
    case _ => true
  }

  /** The run keeps the discipline, except that the steps `waived` need not. */
  predicate Keeps(s: Sys, steps: seq<Step>, waived: set<Step>)
    requires Runs(s, steps)
    decreases |steps|
  {
    steps == [] || ((steps[0] in waived || Disciplined(s, steps[0])) && Keeps(Do(s, steps[0]), steps[1..], waived))
  }

  predicate DisciplinedRun(s: Sys, steps: seq<Step>)
    requires Runs(s, steps)
  {
    Keeps(s, steps, {})
  }

  predicate SingleLink(s: Sys) {
    |s.left.links| == 1 && |s.right.links| == 1
  }

  /** The state node p must be in for a grant held by the idle node n to be harmless. */
  predicate GrantBacked(n: Rep, p: Rep) {
    match n.status
    case Active => true
    case Pending =>
      p.status == Standby || (p.status == Pending && Millis(n.changeTime) < Millis(p.changeTime))
    case Standby => p.status == Standby && Millis(n.changeTime) < Millis(p.changeTime)
    case Unknown(_) => false
  }

  /** What the invariant says of node n with its one link, beside its peer's record. */
  predicate LinkInv(n: Node, p: Rep)
    requires |n.links| == 1
  {
    && Known(n.rep)
    && match n.links[0]
       case Idle => true
       case Asked(t, st) => n.rep.status == Active || (st == n.rep.status && t == Wire(n.rep.changeTime))
       case Replied(allowed) => allowed ==> GrantBacked(n.rep, p)
  }

  /** Active, or about to be. */
  predicate Claims(n: Node)
    requires |n.links| == 1
  {
    n.rep.status == Active || n.links[0] == Replied(true)
  }

  predicate Ordered(a: Rep, b: Rep) {
    a.status == Active || b.status == Active || Millis(a.changeTime) != Millis(b.changeTime)
  }

  /** The invariant, node n against node p. */
  predicate PairInv(n: Node, p: Node) {
    && |n.links| == 1 && |p.links| == 1
    && !(Claims(n) && Claims(p))
    && LinkInv(n, p.rep) && LinkInv(p, n.rep)
    && Ordered(n.rep, p.rep)
  }

  predicate SafeInv(s: Sys) {
    PairInv(s.left, s.right)
  }

  lemma PairInvSymmetric(n: Node, p: Node)
    ensures PairInv(n, p) == PairInv(p, n)
  {
  }

  lemma ClaimsIsPotential(n: Node)
    requires |n.links| == 1
    ensures Claims(n) == Potential(n)
  {
    assert forall k :: 0 <= k < |n.links| ==> n.links[k] == n.links[0];
  }

  lemma AskKeeps(n: Node, p: Node)
    requires PairInv(n, p)
    ensures PairInv(Node(n.rep, [Asked(Wire(n.rep.changeTime), n.rep.status)]), p)
    ensures PairInv(Node(n.rep, [Idle]), p)
  {
  }

  /** An answer is a grant only where the invariant has room for one. */
  lemma ReplyKeeps(n: Node, p: Node, now: nat)
    requires PairInv(n, p) && n.links[0].Asked?
    ensures var q := n.links[0];
            PairInv(Node(n.rep, [Replied(Allow(q.time, q.status, p.rep))]), p.(rep := p.rep.(peerLive := now)))
  {
    WireOrder(n.rep.changeTime, p.rep.changeTime);
  }

  lemma ApplyKeeps(n: Node, p: Node, now: nat)
    requires PairInv(n, p) && n.links[0].Replied?
    requires n.links[0].allowed || n.rep.status == Standby || Millis(now) != Millis(p.rep.changeTime)
    ensures PairInv(Node(Answered(n.rep, n.links[0].allowed, now, now), [Idle]), p)
  {
  }

  lemma ManualKeeps(n: Node, p: Node, now: nat)
    requires PairInv(n, p) && n.rep.status == Active && n.links[0] == Idle && Millis(now) != Millis(p.rep.changeTime)
    ensures PairInv(n.(rep := Become(n.rep, Standby, now)), p)
  {
  }

  lemma PeerLostKeeps(n: Node, p: Node, now: nat)
    requires PairInv(n, p) && !Claims(p)
    ensures PairInv(n.(rep := Become(n.rep, Active, now)), p)
  {
  }

  /** Each step, on the pair of its own node and the peer. */
  lemma PairStep(s: Sys, e: Step)
    requires PairInv(s.At(e.i), s.At(Other(e.i))) && Enabled(s, e) && Disciplined(s, e)
    ensures PairInv(Do(s, e).At(e.i), Do(s, e).At(Other(e.i)))
  {
    var n, p := s.At(e.i), s.At(Other(e.i));
    ClaimsIsPotential(p);
    hide PairInv, Claims, Potential;
    match e
    case Ask(_, _) =>
      AskKeeps(n, p);
      assert n.links[0 := Asked(Wire(n.rep.changeTime), n.rep.status)] == [Asked(Wire(n.rep.changeTime), n.rep.status)];
    case Reply(_, _, now) =>
      ReplyKeeps(n, p, now);
      assert forall r: Rpc :: n.links[0 := r] == [r];
    case Apply(_, _, now) =>
      ApplyKeeps(n, p, now);
      assert n.links[0 := Idle] == [Idle];
    case Lose(_, _) =>
      AskKeeps(n, p);
      assert n.links[0 := Idle] == [Idle];
    case Manual(_, now) =>
      ManualKeeps(n, p, now);
    case PeerLost(_, now) =>
      PeerLostKeeps(n, p, now);
  }

  lemma SafeStep(s: Sys, e: Step)
    requires SafeInv(s) && Enabled(s, e) && Disciplined(s, e)
    ensures SafeInv(Do(s, e))
  {
    hide PairInv, Disciplined, Do, Enabled;
    PairInvSymmetric(s.left, s.right);
    PairStep(s, e);
    PairInvSymmetric(Do(s, e).left, Do(s, e).right);
  }

  /** With one heartbeat link and that discipline, no run of questions, answers,
      losses, manual switches and failovers ever has two active nodes. */
  lemma {:induction false} NeverTwoActive(s: Sys, steps: seq<Step>)
    requires SafeInv(s) && Runs(s, steps) && DisciplinedRun(s, steps)
    ensures !End(s, steps).DoubleActive()
    decreases |steps|
  {
    if steps != [] {
      SafeStep(s, steps[0]);
      NeverTwoActive(Do(s, steps[0]), steps[1..]);
    }
  }

  /** The discipline can be taken up at start-up or at any settled moment. */
  lemma SafeStarts(s: Sys)
    requires SingleLink(s) && s.left.links[0] == Idle && s.right.links[0] == Idle
    requires Known(s.left.rep) && Known(s.right.rep) && !s.DoubleActive()
    requires Ordered(s.left.rep, s.right.rep)
    ensures SafeInv(s)
  {
  }

  // ----- When the discipline is enough -------------------------------------

  lemma {:induction false} KeepsConcat(s: Sys, x: seq<Step>, y: seq<Step>, waived: set<Step>)
    requires Runs(s, x) && Runs(End(s, x), y) && Runs(s, x + y)
    requires Keeps(s, x, waived) && Keeps(End(s, x), y, waived)
    ensures Keeps(s, x + y, waived)
    decreases |x|
  {
    if x == [] {
      assert x + y == y;
    } else {
      assert (x + y)[1..] == x[1..] + y;
      KeepsConcat(Do(s, x[0]), x[1..], y, waived);
    }
  }

  /** One more step at the end of a run that keeps the discipline. */
  lemma Then(s: Sys, steps: seq<Step>, e: Step, waived: set<Step>) returns (longer: seq<Step>, z: Sys)
    requires Runs(s, steps) && Keeps(s, steps, waived) && Enabled(End(s, steps), e)
    requires e in waived || Disciplined(End(s, steps), e)
    ensures Runs(s, longer) && Keeps(s, longer, waived) && z == End(s, longer) == Do(End(s, steps), e)
  {
    RunOne(End(s, steps), e);
    RunsConcat(s, steps, [e]);
    assert [e][1..] == [];
    KeepsConcat(s, steps, [e], waived);
    longer, z := steps + [e], Do(End(s, steps), e);
  }

  /** Node i is active, the other on standby, and no call is outstanding. */
  predicate QuietOn(s: Sys, i: Side) {
    && s.At(i).rep.status == Active && s.At(Other(i)).rep.status == Standby
    && |s.At(i).links| > 0 && AllIdle(s.At(i).links)
    && |s.At(Other(i)).links| > 0 && AllIdle(s.At(Other(i)).links)
  }

  predicate Quiet(s: Sys) {
    QuietOn(s, Left)
  }

  /** The first instant of the millisecond after the one of t. */
  function NextMilli(t: nat): (n: nat)
    ensures Millis(n) == Millis(t) + 1 && t < n && Wire(t) < n
  {
    (Millis(t) + 1) * TICKS_PER_MS
  }

  /** Handing over: node i is switched and the other takes its place. */
  lemma HandOver(s: Sys, i: Side) returns (steps: seq<Step>)
    requires QuietOn(s, i)
    ensures Runs(s, steps) && DisciplinedRun(s, steps)
    ensures var z := End(s, steps);
            QuietOn(z, Other(i)) && z.At(i).links == s.At(i).links && z.At(Other(i)).links == s.At(Other(i)).links
  {
    var z;
    var o := Other(i);
    var t := NextMilli(s.At(o).rep.changeTime);
    steps, z := Then(s, [], Manual(i, t), {});
    steps, z := Then(s, steps, Ask(o, 0), {});
    steps, z := Then(s, steps, Reply(o, 0, t), {});
    steps, z := Then(s, steps, Apply(o, 0, t), {});
  }

  /** The standby node asked while node i was active; node i was switched, the other
      took over on its second link, and has asked once more there. */
  predicate StaleAnswers(z: Sys, i: Side, t: nat) {
    var n, o := z.At(i), z.At(Other(i));
    && |n.links| > 0 && n.links[0] == Idle && n.rep.status == Standby && n.rep.changeTime == t
    && |o.links| > 1 && o.links[0] == Replied(false) && o.links[1] == Replied(true) && o.rep.status == Active
  }

  /** The same, before that last question: the stale denial is still on its way. */
  predicate StaleDenial(z: Sys, i: Side, t: nat) {
    var n, o := z.At(i), z.At(Other(i));
    && |n.links| > 0 && n.links[0] == Idle && n.rep.status == Standby && n.rep.changeTime == t
    && |o.links| > 1 && o.links[0] == Replied(false) && o.links[1] == Idle
    && o.rep.status == Standby && Wire(o.rep.changeTime) < t
  }

  lemma ReachStaleDenial(s: Sys, i: Side) returns (steps: seq<Step>, t: nat)
    requires QuietOn(s, i) && |s.At(Other(i)).links| > 1
    ensures Runs(s, steps) && DisciplinedRun(s, steps) && StaleDenial(End(s, steps), i, t)
  {
    var z;
    var o := Other(i);
    t := NextMilli(s.At(o).rep.changeTime);
    steps, z := Then(s, [], Ask(o, 0), {});
    steps, z := Then(s, steps, Reply(o, 0, t), {});
    steps, z := Then(s, steps, Manual(i, t), {});
  }

  lemma ReachStaleAnswers(s: Sys, i: Side) returns (steps: seq<Step>, t: nat)
    requires QuietOn(s, i) && |s.At(Other(i)).links| > 1
    ensures Runs(s, steps) && DisciplinedRun(s, steps) && StaleAnswers(End(s, steps), i, t)
  {
    var z;
    var o := Other(i);
    steps, t := ReachStaleDenial(s, i);
    steps, z := Then(s, steps, Ask(o, 1), {});
    steps, z := Then(s, steps, Reply(o, 1, t), {});
    steps, z := Then(s, steps, Apply(o, 1, t), {});
    steps, z := Then(s, steps, Ask(o, 1), {});
    steps, z := Then(s, steps, Reply(o, 1, t), {});
  }

  /** A second heartbeat link on the standby side makes both nodes active though every
      step keeps the discipline: its two links carry answers of different ages. */
  lemma SecondLinkUnsafe(s: Sys, i: Side) returns (steps: seq<Step>)
    requires QuietOn(s, i) && |s.At(Other(i)).links| > 1
    ensures Runs(s, steps) && DisciplinedRun(s, steps) && End(s, steps).DoubleActive()
  {
    var t, z;
    var o := Other(i);
    steps, t := ReachStaleAnswers(s, i);
    var u := NextMilli(t);
    steps, z := Then(s, steps, Apply(o, 0, u), {});
    steps, z := Then(s, steps, Ask(i, 0), {});
    steps, z := Then(s, steps, Reply(i, 0, u), {});
    steps, z := Then(s, steps, Apply(i, 0, u), {});
    steps, z := Then(s, steps, Apply(o, 1, u), {});
  }

  ghost predicate DoubleActiveReachable(s: Sys) {
    exists steps :: Runs(s, steps) && DisciplinedRun(s, steps) && End(s, steps).DoubleActive()
  }

  /** From a settled pair, disciplined runs are safe if and only if each node has one
      heartbeat link; the program starts two. */
  lemma SafeIffSingleLink(s: Sys)
    requires Quiet(s)
    ensures DoubleActiveReachable(s) <==> !SingleLink(s)
  {
    if SingleLink(s) {
      SafeStarts(s);
      forall steps | Runs(s, steps) && DisciplinedRun(s, steps)
        ensures !End(s, steps).DoubleActive()
      {
        NeverTwoActive(s, steps);
      }
    } else if |s.right.links| > 1 {
      var steps := SecondLinkUnsafe(s, Left);
    } else {
      var first := HandOver(s, Left);
      var second := SecondLinkUnsafe(End(s, first), Right);
      RunsConcat(s, first, second);
      KeepsConcat(s, first, second, {});
      assert End(s, first + second).DoubleActive();
    }
  }

  // ----- Every part of the discipline is needed ----------------------------
  // In each of these runs one step alone breaks one clause of it.

  /** Manual, the links: switching a node whose own question has already been answered
      "yes" lets that stale answer re-activate it after the handover. */
  lemma SwitchWhileWaiting(s: Sys) returns (steps: seq<Step>, t: nat)
    requires Quiet(s)
    ensures Apart(s, Left, t)
    ensures Runs(s, steps) && Keeps(s, steps, {Manual(Left, t)}) && End(s, steps).DoubleActive()
  {
    t := NextMilli(s.right.rep.changeTime);
    var w := {Manual(Left, t)};
    var z;
    steps, z := Then(s, [], Ask(Left, 0), w);
    steps, z := Then(s, steps, Reply(Left, 0, t), w);
    steps, z := Then(s, steps, Manual(Left, t), w);
    steps, z := Then(s, steps, Ask(Right, 0), w);
    steps, z := Then(s, steps, Reply(Right, 0, t), w);
    steps, z := Then(s, steps, Apply(Right, 0, t), w);
    steps, z := Then(s, steps, Apply(Left, 0, t), w);
  }

  /** Two standbys of one millisecond, off its boundary: each is let through. */
  lemma TiedStandbys(s: Sys, steps: seq<Step>, w: set<Step>, now: nat) returns (longer: seq<Step>)
    requires Runs(s, steps) && Keeps(s, steps, w)
    requires var z := End(s, steps);
             && z.left.rep.status == z.right.rep.status == Standby && DoubleGrant(z.left.rep, z.right.rep)
             && |z.left.links| > 0 && |z.right.links| > 0 && z.left.links[0] == z.right.links[0] == Idle
    ensures Runs(s, longer) && Keeps(s, longer, w) && End(s, longer).DoubleActive()
  {
    var z := End(s, steps);
    WireOrder(z.left.rep.changeTime, z.right.rep.changeTime);
    WireOrder(z.right.rep.changeTime, z.left.rep.changeTime);
    longer, z := Then(s, steps, Ask(Left, 0), w);
    longer, z := Then(s, longer, Ask(Right, 0), w);
    longer, z := Then(s, longer, Reply(Left, 0, now), w);
    longer, z := Then(s, longer, Reply(Right, 0, now), w);
    longer, z := Then(s, longer, Apply(Left, 0, now), w);
    longer, z := Then(s, longer, Apply(Right, 0, now), w);
  }

  /** Manual, the time: a switch in the millisecond the standby changed in. */
  lemma SwitchInSameMilli(s: Sys, now: nat) returns (steps: seq<Step>)
    requires Quiet(s) && Millis(now) == Millis(s.right.rep.changeTime)
    requires now % TICKS_PER_MS != 0 && !WholeMillis(s.right.rep)
    ensures Runs(s, steps) && Keeps(s, steps, {Manual(Left, now)}) && End(s, steps).DoubleActive()
  {
    var w, z := {Manual(Left, now)}, s;
    steps, z := Then(s, [], Manual(Left, now), w);
    steps := TiedStandbys(s, steps, w, now);
  }

  /** Left has become active and waits for nothing; Right has yet to learn of its denial. */
  predicate LateDenial(z: Sys, b: nat) {
    && z.left.rep.status == Active && |z.left.links| > 0 && AllIdle(z.left.links)
    && z.right.rep.status == Pending && z.right.rep.changeTime == b
    && |z.right.links| > 0 && z.right.links[0] == Replied(false)
  }

  lemma ReachLateDenial(s: Sys, a: nat, b: nat, w: set<Step>, t: nat) returns (steps: seq<Step>)
    requires Booted(s, a, b) && Millis(a) < Millis(b)
    ensures Runs(s, steps) && Keeps(s, steps, w) && LateDenial(End(s, steps), b)
  {
    var z;
    WireOrder(a, b);
    WireOrder(b, a);
    steps, z := Then(s, [], Ask(Right, 0), w);
    steps, z := Then(s, steps, Reply(Right, 0, t), w);
    steps, z := Then(s, steps, Ask(Left, 0), w);
    steps, z := Then(s, steps, Reply(Left, 0, t), w);
    steps, z := Then(s, steps, Apply(Left, 0, t), w);
  }

  /** Apply, the time: a node that learns of its denial in the millisecond its peer was
      switched in. */
  lemma DenialInSameMilli(s: Sys, a: nat, b: nat) returns (steps: seq<Step>, t: nat)
    requires Booted(s, a, b) && Millis(a) < Millis(b)
    ensures Runs(s, steps) && Keeps(s, steps, {Apply(Right, 0, t)}) && End(s, steps).DoubleActive()
  {
    t := NextMilli(b) + 1;
    var w, z := {Apply(Right, 0, t)}, s;
    steps := ReachLateDenial(s, a, b, w, t);
    steps, z := Then(s, steps, Manual(Left, t), w);
    steps, z := Then(s, steps, Apply(Right, 0, t), w);
    steps := TiedStandbys(s, steps, w, t);
  }

  /** PeerLost, an active peer: a failure detector that fires while it is. */
  lemma FalseAlarmUnsafe(s: Sys, t: nat)
    requires Quiet(s)
    ensures var steps := [PeerLost(Right, t)];
            Runs(s, steps) && Keeps(s, steps, {PeerLost(Right, t)}) && End(s, steps).DoubleActive()
  {
    RunOne(s, PeerLost(Right, t));
    assert [PeerLost(Right, t)][1..] == [];
  }

  /** PeerLost, a peer about to be active: it has been let through and has yet to act. */
  lemma EarlyAlarmUnsafe(s: Sys, a: nat, b: nat, t: nat) returns (steps: seq<Step>)
    requires Booted(s, a, b) && Millis(a) < Millis(b)
    ensures Runs(s, steps) && Keeps(s, steps, {PeerLost(Right, t)}) && End(s, steps).DoubleActive()
  {
    var w, z := {PeerLost(Right, t)}, s;
    WireOrder(a, b);
    steps, z := Then(s, [], Ask(Left, 0), w);
    steps, z := Then(s, steps, Reply(Left, 0, t), w);
    steps, z := Then(s, steps, PeerLost(Right, t), w);
    steps, z := Then(s, steps, Apply(Left, 0, t), w);
  }

  /** One whole call of node i on its link k. */
  function Beat(i: Side, k: nat, now: nat): seq<Step> {
    [Ask(i, k), Reply(i, k, now), Apply(i, k, now)]
  }

  lemma BeatRuns(s: Sys, i: Side, k: nat, now: nat)
    requires k < |s.At(i).links| && s.At(i).links[k] == Idle
    ensures Runs(s, Beat(i, k, now))
    ensures var z, n, p := End(s, Beat(i, k, now)), s.At(i), s.At(Other(i));
            && z.At(i) == n.(rep := Heartbeat(n.rep, p.rep, now))
            && z.At(Other(i)) == p.(rep := p.rep.(peerLive := now))
  {
    var steps := Beat(i, k, now);
    assert steps[1..] == [Reply(i, k, now), Apply(i, k, now)] && steps[1..][1..] == [Apply(i, k, now)];
    var a := Do(s, steps[0]);
    var b := Do(a, steps[1]);
    RunOne(b, Apply(i, k, now));
    assert s.At(i).links[k := Idle] == s.At(i).links;
  }

  /** Two nodes made active by their failure detectors in different milliseconds, each
      then beating once, whichever first: the one activated later stays. */
  lemma LaterFailoverStays(s: Sys, t: nat, u: nat, first: Side, x: nat, y: nat)
    requires IdlePair(s) && s.left.rep.status != Active && s.right.rep.status != Active && Millis(t) != Millis(u)
    ensures var steps := [PeerLost(Left, t), PeerLost(Right, u)] + (Beat(first, 0, x) + Beat(Other(first), 0, y));
            && Runs(s, steps)
            && var z := End(s, steps);
               if Millis(t) > Millis(u)
               then z.left.rep.status == Active && z.left.rep.changeTime == t && z.right.rep.status == Standby
               else z.right.rep.status == Active && z.right.rep.changeTime == u && z.left.rep.status == Standby
  {
    var lost := [PeerLost(Left, t), PeerLost(Right, u)];
    assert lost[1..] == [PeerLost(Right, u)];
    RunOne(Do(s, lost[0]), lost[1]);
    var z := End(s, lost);
    assert z.left == s.left.(rep := Rep(Active, t, s.left.rep.peerLive));
    assert z.right == s.right.(rep := Rep(Active, u, s.right.rep.peerLive));
    WireOrder(t, u);
    WireOrder(u, t);
    BeatRuns(z, first, 0, x);
    var m := End(z, Beat(first, 0, x));
    BeatRuns(m, Other(first), 0, y);
    RunsConcat(z, Beat(first, 0, x), Beat(Other(first), 0, y));
    RunsConcat(s, lost, Beat(first, 0, x) + Beat(Other(first), 0, y));
  }

  /** Two active nodes that find each other again are down to one after both have
      beaten once undisturbed: the one activated in the later millisecond stays. */
  lemma DoubleActiveHeals(s: Sys, t: nat, u: nat)
    requires s.DoubleActive()
    ensures var l := Heartbeat(s.left.rep, s.right.rep, t);
            var r := Heartbeat(s.right.rep, l, u);
            && Settled(l, r)
            && (l.status == Active <==> Millis(s.left.rep.changeTime) > Millis(s.right.rep.changeTime))
  {
    OneRoundSettles(s.left.rep, s.right.rep, t, u);
  }
}
