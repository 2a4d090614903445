/** Shutting the thread pool down: the destructor posts one terminate message per
    worker and joins them, while they drain the queue. */
module ThreadPool {
  import opened CircularQ
  import opened MpmcQueue

  datatype Msg = Log(id: nat) | Flush(id: nat) | Terminate

  /** The constructor's check of the number of threads. */
  predicate ValidThreads(n: nat) {
    n != 0 && n <= 1000
  }

  /** `owner` is the thread inside the destructor, `live` the workers not yet
      returned from their loop. `holding` and `processed` number messages by their
      place in the order of pops: those a worker has popped and not finished, and
      those that are finished. */
  datatype Pool = Pool(q: Sys<Msg>, owner: nat, live: set<nat>, postsLeft: nat,
                       holding: map<nat, nat>, processed: set<nat>)

  datatype PoolStep =
    | Post
    | Loop(t: nat)
    | Inner(e: Step<Msg>)

  predicate PoolEnabled(p: Pool, a: PoolStep) {
    match a
    case Post => p.postsLeft > 0 && p.owner !in p.q.threads
    case Loop(t) => t in p.live && t !in p.q.threads
    case Inner(e) => !e.StartEnqueue? && !e.StartNowait? && !e.StartDequeue? && Enabled(p.q, e)
  }

  function PoolDo(p: Pool, a: PoolStep): Pool
    requires PoolEnabled(p, a)
  {
    match a
    case Post => p.(q := Do(p.q, StartEnqueue(p.owner, Terminate)), postsLeft := p.postsLeft - 1)
    case Loop(t) => p.(q := Do(p.q, StartDequeue(t)))
    case Inner(e) =>
      var r := p.(q := Do(p.q, e));
      if e.TryPop? && p.q.items != [] then
        r.(holding := p.holding[e.t := |p.q.log.popped|])
      else if e.NotifyPop? && e.t in p.holding then
        // the message is handled; a terminate ends the worker's loop
        r.(holding := p.holding - {e.t}, processed := p.processed + {p.holding[e.t]},
           live := if p.q.threads[e.t].item == Terminate then p.live - {e.t} else p.live)
      else r
  }

  // ----- Invariant ------------------------------------------------------------

  function Terminates(items: seq<Msg>): nat {
    if items == [] then 0 else Terminates(items[..|items| - 1]) + (if items[|items| - 1] == Terminate then 1 else 0)
  }

  function HoldingTerminate(q: Sys<Msg>): set<nat> {
    set t | t in q.threads && q.threads[t] == PopDone(Terminate)
  }

  /** The terminate the destructor is trying to post, if any. */
  function PostingIn(q: Sys<Msg>, owner: nat): nat {
    if Is(q, owner, KProducing) || Is(q, owner, KFullAsleep) then 1 else 0
  }

  /** Every thread does what its role says. */
  predicate Roles(p: Pool) {
    p.owner !in p.live && forall t :: t in p.q.threads ==> Role(p, t, p.q.threads[t])
  }

  /** There is one terminate for every live worker, somewhere. */
  predicate Enough(p: Pool) {
    |p.live| == Outstanding(p.q, p.owner) + p.postsLeft
  }

  datatype Book = Book(popped: nat, holding: map<nat, nat>, processed: set<nat>)

  function BookOf(p: Pool): Book {
    Book(|p.q.log.popped|, p.holding, p.processed)
  }

  /** Every popped message is in exactly one worker's hands, or finished, not both. */
  ghost predicate BookOk(b: Book) {
    && (forall t :: t in b.holding ==> b.holding[t] < b.popped && b.holding[t] !in b.processed)
    && (forall t, u :: t in b.holding && u in b.holding && t != u ==> b.holding[t] != b.holding[u])
    && (forall i :: i in b.processed ==> i < b.popped)
    && (forall i :: 0 <= i < b.popped && i !in b.processed ==> exists t :: t in b.holding && b.holding[t] == i)
  }

  ghost predicate Accounted(p: Pool) {
    (forall t :: t in p.holding <==> Is(p.q, t, KPopDone)) && BookOk(BookOf(p))
  }

  ghost predicate Inv(p: Pool) {
    NoStranded(p.q) && p.q.capacity >= 1 && Roles(p) && Enough(p) && Accounted(p)
  }

  /** The shutdown begins: the messages accepted so far are queued or in workers'
      hands, none of them a terminate. */
  ghost predicate ShutdownStart(p: Pool) {
    && NoStranded(p.q) && Roles(p) && Accounted(p)
    && p.owner !in p.q.threads && ValidThreads(|p.live|) && p.postsLeft == |p.live|
    && Terminates(p.q.items) == 0 && HoldingTerminate(p.q) == {}
  }

  lemma StartInv(p: Pool)
    requires ShutdownStart(p) && p.q.capacity >= 1
    ensures Inv(p)
  {
  }

  lemma TerminatesSnoc(items: seq<Msg>, x: Msg)
    ensures Terminates(items + [x]) == Terminates(items) + (if x == Terminate then 1 else 0)
  {
    assert (items + [x])[..|items|] == items;
  }

  lemma {:induction false} TerminatesTail(items: seq<Msg>)
    requires items != []
    ensures Terminates(items) == Terminates(items[1..]) + (if items[0] == Terminate then 1 else 0)
  {
    var n := |items| - 1;
    if n > 0 {
      TerminatesTail(items[..n]);
      assert items[..n][1..] == items[1..][..n - 1];
    } else {
      assert items[..0] == [] && items[1..] == [];
    }
  }

  predicate Wakeup(a: PoolStep) {
    a.Inner? && (a.e.Timeout? || a.e.Spurious?)
  }

  // ----- Preservation -----------------------------------------------------------

  lemma StrandedKept(p: Pool, a: PoolStep)
    requires Inv(p) && PoolEnabled(p, a)
    ensures NoStranded(PoolDo(p, a).q) && PoolDo(p, a).q.capacity >= 1
  {
    hide NoStranded, Roles, Enough, Accounted;
    match a
    case Post => NoStrandedStep(p.q, StartEnqueue(p.owner, Terminate));
    case Loop(t) => NoStrandedStep(p.q, StartDequeue(t));
    case Inner(e) => NoStrandedStep(p.q, e);
  }

  /** What thread t may be doing, by its role. */
  predicate Role(p: Pool, t: nat, pc: Pc<Msg>) {
    if t == p.owner then pc == Producing(Terminate) || pc == FullAsleep(Terminate) || pc == PushDone
    else t in p.live && (pc.Popping? || pc.EmptyAsleep? || pc.PopDone?)
  }

  lemma RolesWake(p: Pool, q: Sys<Msg>, asleep: Kind, woken: nat)
    requires forall u :: u in q.threads ==> Role(p, u, q.threads[u])
    requires asleep == KEmptyAsleep || asleep == KFullAsleep
    ensures var z := Wake(q, asleep, woken);
            z.threads.Keys == q.threads.Keys && forall u :: u in z.threads ==> Role(p, u, z.threads[u])
  {
  }

  lemma RolesKept(p: Pool, a: PoolStep)
    requires Roles(p) && (forall t :: t in p.holding <==> Is(p.q, t, KPopDone)) && PoolEnabled(p, a)
    ensures Roles(PoolDo(p, a))
  {
    if a.Inner? && a.e.NotifyPop? {
      RolesWake(p, p.q, KFullAsleep, a.e.woken);
      hide Wake;
    } else if a.Inner? && a.e.NotifyPush? {
      RolesWake(p, p.q, KEmptyAsleep, a.e.woken);
      hide Wake;
    }
  }

  lemma HoldingSet(q: Sys<Msg>, t: nat, pc: Pc<Msg>)
    ensures HoldingTerminate(q.Set(t, pc)) ==
            if pc == PopDone(Terminate) then HoldingTerminate(q) + {t} else HoldingTerminate(q) - {t}
    ensures |HoldingTerminate(q.Set(t, pc))| == |HoldingTerminate(q)| + (if pc == PopDone(Terminate) then 1 else 0)
                                              - (if t in q.threads && q.threads[t] == PopDone(Terminate) then 1 else 0)
  {
  }

  lemma HoldingLeave(q: Sys<Msg>, t: nat)
    ensures HoldingTerminate(q.Leave(t)) == HoldingTerminate(q) - {t}
    ensures |HoldingTerminate(q.Leave(t))| == |HoldingTerminate(q)|
                                            - (if t in q.threads && q.threads[t] == PopDone(Terminate) then 1 else 0)
  {
  }

  lemma HoldingWake(q: Sys<Msg>, asleep: Kind, woken: nat)
    requires asleep == KEmptyAsleep || asleep == KFullAsleep
    ensures HoldingTerminate(Wake(q, asleep, woken)) == HoldingTerminate(q)
  {
  }

  lemma SameHolding(q: Sys<Msg>, z: Sys<Msg>)
    requires q.threads == z.threads
    ensures HoldingTerminate(q) == HoldingTerminate(z)
  {
  }

  /** The sum that has to match the number of live workers. */
  function Outstanding(q: Sys<Msg>, owner: nat): nat {
    PostingIn(q, owner) + Terminates(q.items) + |HoldingTerminate(q)|
  }

  lemma PushMovesTerminate(q: Sys<Msg>, t: nat)
    requires t in q.threads && q.threads[t] == Producing(Terminate)
    ensures Outstanding(Do(q, TryPush(t)), t) == Outstanding(q, t)
  {
    TerminatesSnoc(q.items, Terminate);
    var z := Do(q, TryPush(t));
    HoldingSet(q, t, z.threads[t]);
    SameHolding(z, q.Set(t, z.threads[t]));
  }

  lemma PopMovesTerminate(q: Sys<Msg>, t: nat, owner: nat)
    requires t in q.threads && q.threads[t].Popping? && t != owner
    ensures Outstanding(Do(q, TryPop(t)), owner) == Outstanding(q, owner)
  {
    hide HoldingTerminate, Terminates;
    var z := Do(q, TryPop(t));
    if q.items != [] {
      TerminatesTail(q.items);
    }
    if t in z.threads {
      HoldingSet(q, t, z.threads[t]);
      SameHolding(z, q.Set(t, z.threads[t]));
    } else {
      HoldingLeave(q, t);
    }
  }

  lemma NotifyMovesTerminate(q: Sys<Msg>, t: nat, woken: nat, owner: nat, asleep: Kind)
    requires t in q.threads && (q.threads[t].PopDone? || q.threads[t].PushDone?)
    requires asleep == KEmptyAsleep || asleep == KFullAsleep
    ensures Outstanding(Wake(q, asleep, woken).Leave(t), owner)
         == Outstanding(q, owner) - if q.threads[t] == PopDone(Terminate) then 1 else 0
  {
    HoldingWake(q, asleep, woken);
    HoldingLeave(Wake(q, asleep, woken), t);
    PostingWake(q, t, woken, owner, asleep);
    assert Wake(q, asleep, woken).items == q.items;
    hide Wake, Terminates, PostingIn;
  }

  lemma PostingWake(q: Sys<Msg>, t: nat, woken: nat, owner: nat, asleep: Kind)
    requires t in q.threads && (q.threads[t].PopDone? || q.threads[t].PushDone?)
    requires asleep == KEmptyAsleep || asleep == KFullAsleep
    ensures PostingIn(Wake(q, asleep, woken).Leave(t), owner) == PostingIn(q, owner)
  {
  }

  lemma MoveKeepsTerminates(q: Sys<Msg>, t: nat, pc: Pc<Msg>, owner: nat)
    requires !pc.PopDone? && (t in q.threads ==> !q.threads[t].PopDone?)
    requires t == owner ==> ((t in q.threads && (q.threads[t].Producing? || q.threads[t].FullAsleep?))
                             <==> (pc.Producing? || pc.FullAsleep?))
    ensures Outstanding(q.Set(t, pc), owner) == Outstanding(q, owner)
  {
    hide HoldingTerminate, Terminates;
    HoldingSet(q, t, pc);
  }

  lemma EnoughKept(p: Pool, a: PoolStep)
    requires Roles(p) && Enough(p) && (forall t :: t in p.holding <==> Is(p.q, t, KPopDone)) && PoolEnabled(p, a)
    ensures Enough(PoolDo(p, a))
  {
    hide HoldingTerminate, Terminates, Wake, Outstanding, PostingIn;
    match a
    case Post => PostMoves(p.q, p.owner);
    case Loop(t) => MoveKeepsTerminates(p.q, t, Popping(false), p.owner);
    case Inner(e) =>
      hide Enough;
      if e.NotifyPop? {
        EnoughAfterPop(p, e);
      } else {
        EnoughInside(p, e);
      }
  }

  lemma EnoughAfterPop(p: Pool, e: Step<Msg>)
    requires Roles(p) && Enough(p) && (forall t :: t in p.holding <==> Is(p.q, t, KPopDone)) && PoolEnabled(p, Inner(e))
    requires e.NotifyPop?
    ensures Enough(PoolDo(p, Inner(e)))
  {
    hide HoldingTerminate, Terminates, Wake, Outstanding, PostingIn;
    NotifyMovesTerminate(p.q, e.t, e.woken, p.owner, KFullAsleep);
  }

  lemma EnoughInside(p: Pool, e: Step<Msg>)
    requires Roles(p) && Enough(p) && PoolEnabled(p, Inner(e)) && !e.NotifyPop?
    ensures Enough(PoolDo(p, Inner(e)))
  {
    hide HoldingTerminate, Terminates, Wake, Outstanding, PostingIn;
    match e
    case TryPush(t) => PushMovesTerminate(p.q, t);
    case NotifyPush(t, woken) => NotifyMovesTerminate(p.q, t, woken, p.owner, KEmptyAsleep);
    case TryPop(t) => PopMovesTerminate(p.q, t, p.owner);
    case Timeout(t) => MoveKeepsTerminates(p.q, t, Popping(true), p.owner);
    case Spurious(t) => MoveKeepsTerminates(p.q, t, Awake(p.q.threads[t]), p.owner);
    case _ =>
  }

  lemma PostMoves(q: Sys<Msg>, owner: nat)
    requires owner !in q.threads
    ensures Outstanding(q.Set(owner, Producing(Terminate)), owner) == Outstanding(q, owner) + 1
  {
    HoldingSet(q, owner, Producing(Terminate));
  }

  // ----- Accounting -----------------------------------------------------------

  lemma BookPop(book: Book, t: nat)
    requires BookOk(book) && t !in book.holding
    ensures BookOk(Book(book.popped + 1, book.holding[t := book.popped], book.processed))
  {
    var z := Book(book.popped + 1, book.holding[t := book.popped], book.processed);
    forall i | 0 <= i < z.popped && i !in z.processed
      ensures exists u :: u in z.holding && z.holding[u] == i
    {
      if i == book.popped {
        assert z.holding[t] == i;
      } else {
        var u :| u in book.holding && book.holding[u] == i;
        assert z.holding[u] == i;
      }
    }
  }

  lemma BookFinish(book: Book, t: nat)
    requires BookOk(book) && t in book.holding
    ensures BookOk(Book(book.popped, book.holding - {t}, book.processed + {book.holding[t]}))
  {
    var z := Book(book.popped, book.holding - {t}, book.processed + {book.holding[t]});
    forall i | 0 <= i < z.popped && i !in z.processed
      ensures exists u :: u in z.holding && z.holding[u] == i
    {
      var u :| u in book.holding && book.holding[u] == i;
      assert u != t && z.holding[u] == i;
    }
  }

  lemma HoldersWake(q: Sys<Msg>, asleep: Kind, woken: nat, t: nat)
    requires asleep == KEmptyAsleep || asleep == KFullAsleep
    ensures forall u :: Is(Wake(q, asleep, woken).Leave(t), u, KPopDone) <==> Is(q, u, KPopDone) && u != t
  {
  }

  lemma AccountedKept(p: Pool, a: PoolStep)
    requires Accounted(p) && PoolEnabled(p, a)
    ensures Accounted(PoolDo(p, a))
  {
    hide BookOk;
    if a.Inner? && a.e.TryPop? && p.q.items != [] {
      BookPop(BookOf(p), a.e.t);
    } else if a.Inner? && a.e.NotifyPop? {
      HoldersWake(p.q, KFullAsleep, a.e.woken, a.e.t);
      hide Wake;
      BookFinish(BookOf(p), a.e.t);
    } else if a.Inner? && a.e.NotifyPush? {
      HoldersWake(p.q, KEmptyAsleep, a.e.woken, a.e.t);
      hide Wake;
    }
  }

  lemma InvStep(p: Pool, a: PoolStep)
    requires Inv(p) && PoolEnabled(p, a)
    ensures Inv(PoolDo(p, a))
  {
    StrandedKept(p, a);
    RolesKept(p, a);
    EnoughKept(p, a);
    AccountedKept(p, a);
  }

  // ----- No deadlock --------------------------------------------------------------

  /** The destructor has posted everything and every worker has returned. */
  predicate Joined(p: Pool) {
    p.postsLeft == 0 && p.owner !in p.q.threads && p.live == {}
  }

  lemma Sleeper(q: Sys<Msg>, asleep: Kind) returns (w: nat)
    ensures Wakes(q, asleep, w)
  {
    w := 0;
    if Those(q.threads, asleep) != {} {
      w :| w in Those(q.threads, asleep);
    }
  }

  /** A thread that can move by itself, if any is inside a call and awake. */
  lemma AwakeThread(q: Sys<Msg>, t: nat) returns (a: PoolStep)
    requires t in q.threads
    requires q.threads[t].Popping? || q.threads[t].Producing? || q.threads[t].PushDone? || q.threads[t].PopDone?
    ensures a.Inner? && Enabled(q, a.e) && !Wakeup(a)
    ensures !a.e.StartEnqueue? && !a.e.StartNowait? && !a.e.StartDequeue?
  {
    match q.threads[t]
    case Popping(_) => a := Inner(TryPop(t));
    case Producing(_) => a := Inner(TryPush(t));
    case PushDone =>
      var w := Sleeper(q, KEmptyAsleep);
      a := Inner(NotifyPush(t, w));
    case PopDone(_) =>
      var w := Sleeper(q, KFullAsleep);
      a := Inner(NotifyPop(t, w));
  }

  /** When everybody inside a call sleeps, the queue is empty beside a sleeping
      consumer and full beside a sleeping producer. */
  lemma AllAsleep(q: Sys<Msg>)
    requires NoStranded(q)
    requires forall t :: t in q.threads ==> q.threads[t].EmptyAsleep? || q.threads[t].FullAsleep?
    ensures HoldingTerminate(q) == {}
    ensures (exists t :: t in q.threads && q.threads[t].EmptyAsleep?) ==> q.items == []
    ensures (exists t :: t in q.threads && q.threads[t].FullAsleep?) ==> |q.items| == q.capacity
  {
    assert Those(q.threads, KPopping) == {} && Those(q.threads, KPushDone) == {};
    assert Those(q.threads, KProducing) == {} && Those(q.threads, KPopDone) == {};
    if t :| t in q.threads && q.threads[t].EmptyAsleep? {
      assert t in Those(q.threads, KEmptyAsleep);
    }
    if t :| t in q.threads && q.threads[t].FullAsleep? {
      assert t in Those(q.threads, KFullAsleep);
    }
  }

  /** Until everybody is joined some thread can move, without waiting for a timeout
      or a spurious wake-up. */
  lemma NoDeadlock(p: Pool) returns (a: PoolStep)
    requires Inv(p) && !Joined(p)
    ensures PoolEnabled(p, a) && !Wakeup(a)
  {
    if t :| t in p.live && t !in p.q.threads {
      return Loop(t);
    }
    if t :| t in p.q.threads && !p.q.threads[t].EmptyAsleep? && !p.q.threads[t].FullAsleep? {
      a := AwakeThread(p.q, t);
      return;
    }
    if p.postsLeft > 0 && p.owner !in p.q.threads {
      return Post;
    }
    AllAsleep(p.q);
    assert false;
  }

  // ----- Termination --------------------------------------------------------------

  /** Threads on their last look at the queue after a timeout. */
  function Expired(q: Sys<Msg>): set<nat> {
    set t | t in q.threads && q.threads[t] == Popping(true)
  }

  /** How much work is left, weighed so that every step but a wake-up does some. */
  function Work(p: Pool): int {
    8 * p.postsLeft + 2 * |p.live| + QueueWork(p.q)
  }

  function QueueWork(q: Sys<Msg>): int {
    4 * |q.items| + 7 * Count(q, KProducing) + 6 * Count(q, KFullAsleep) + 2 * Count(q, KPushDone)
    - Count(q, KPopping) - 2 * Count(q, KEmptyAsleep) + 2 * Count(q, KPopDone) + 2 * |Expired(q)|
  }

  lemma ExpiredSet(q: Sys<Msg>, t: nat, pc: Pc<Msg>)
    ensures |Expired(q.Set(t, pc))| == |Expired(q)| + (if pc == Popping(true) then 1 else 0)
                                     - (if t in q.threads && q.threads[t] == Popping(true) then 1 else 0)
  {
    assert Expired(q.Set(t, pc)) == if pc == Popping(true) then Expired(q) + {t} else Expired(q) - {t};
  }

  lemma ExpiredLeave(q: Sys<Msg>, t: nat)
    ensures |Expired(q.Leave(t))| == |Expired(q)| - (if t in q.threads && q.threads[t] == Popping(true) then 1 else 0)
  {
    assert Expired(q.Leave(t)) == Expired(q) - {t};
  }

  lemma ExpiredWake(q: Sys<Msg>, asleep: Kind, woken: nat)
    requires asleep == KEmptyAsleep || asleep == KFullAsleep
    ensures Expired(Wake(q, asleep, woken)) == Expired(q)
  {
  }

  lemma ExpiredSame(q: Sys<Msg>, z: Sys<Msg>)
    requires q.threads == z.threads
    ensures Expired(q) == Expired(z)
  {
  }

  lemma MoveWork(q: Sys<Msg>, t: nat, pc: Pc<Msg>)
    requires (pc.Producing? && t !in q.threads) || (pc == Popping(false) && t !in q.threads)
          || (pc == Popping(true) && Is(q, t, KEmptyAsleep))
          || (t in q.threads && pc == Awake(q.threads[t]) && (Is(q, t, KEmptyAsleep) || Is(q, t, KFullAsleep)))
    ensures QueueWork(q.Set(t, pc)) <= QueueWork(q) +
              (if pc.Producing? && t !in q.threads then 7 else if t !in q.threads then -1 else 3)
  {
    Moves(q, t, pc);
    ExpiredSet(q, t, pc);
    hide Those, Expired, Count;
  }

  lemma PushWork(q: Sys<Msg>, t: nat)
    requires Is(q, t, KProducing)
    ensures QueueWork(Do(q, TryPush(t))) < QueueWork(q)
  {
    var z := Do(q, TryPush(t));
    Moves(q, t, z.threads[t]);
    ExpiredSet(q, t, z.threads[t]);
    SameThreads(z, q.Set(t, z.threads[t]));
    ExpiredSame(z, q.Set(t, z.threads[t]));
    hide Those, Expired, Count;
  }

  lemma PopWork(q: Sys<Msg>, t: nat)
    requires Is(q, t, KPopping)
    ensures QueueWork(Do(q, TryPop(t))) < QueueWork(q)
  {
    hide Those, Expired, Count;
    var z := Do(q, TryPop(t));
    if t in z.threads {
      Moves(q, t, z.threads[t]);
      ExpiredSet(q, t, z.threads[t]);
      SameThreads(z, q.Set(t, z.threads[t]));
      ExpiredSame(z, q.Set(t, z.threads[t]));
    } else {
      Leaves(q, t);
      ExpiredLeave(q, t);
    }
  }

  lemma NotifyWork(q: Sys<Msg>, t: nat, woken: nat, notifier: Kind, asleep: Kind, awake: Kind)
    requires Is(q, t, notifier) && Wakes(q, asleep, woken)
    requires (notifier == KPushDone && asleep == KEmptyAsleep && awake == KPopping)
          || (notifier == KPopDone && asleep == KFullAsleep && awake == KProducing)
    ensures QueueWork(Wake(q, asleep, woken).Leave(t)) < QueueWork(q)
  {
    Notified(q, t, woken, notifier, asleep, awake);
    ExpiredWake(q, asleep, woken);
    ExpiredLeave(Wake(q, asleep, woken), t);
    assert Wake(q, asleep, woken).items == q.items;
    hide Those, Expired, Count;
  }

  /** Every step does some of the work; only a timeout or spurious wake-up adds to
      it, and never more than three units. */
  lemma WorkStep(p: Pool, a: PoolStep)
    requires Roles(p) && PoolEnabled(p, a)
    ensures Work(PoolDo(p, a)) <= Work(p) + if Wakeup(a) then 3 else -1
  {
    hide QueueWork;
    match a
    case Post => MoveWork(p.q, p.owner, Producing(Terminate));
    case Loop(t) => MoveWork(p.q, t, Popping(false));
    case Inner(e) =>
      match e
      case TryPush(t) => PushWork(p.q, t);
      case NotifyPush(t, woken) => NotifyWork(p.q, t, woken, KPushDone, KEmptyAsleep, KPopping);
      case TryPop(t) => PopWork(p.q, t);
      case NotifyPop(t, woken) => NotifyWork(p.q, t, woken, KPopDone, KFullAsleep, KProducing);
      case Timeout(t) => MoveWork(p.q, t, Popping(true));
      case Spurious(t) => MoveWork(p.q, t, Awake(p.q.threads[t]));
      case _ =>
  }

  lemma WorkNonNegative(p: Pool)
    requires Roles(p)
    ensures Work(p) >= 0
  {
    var x, y := Those(p.q.threads, KPopping), Those(p.q.threads, KEmptyAsleep);
    assert x + y <= p.live && x !! y;
    Subset(x + y, p.live);
    assert |x + y| == |x| + |y|;
  }

  lemma {:induction false} Subset(x: set<nat>, y: set<nat>)
    requires x <= y
    ensures |x| <= |y|
    decreases x
  {
    if x != {} {
      var e :| e in x;
      Subset(x - {e}, y - {e});
    }
  }

  predicate PoolRuns(p: Pool, steps: seq<PoolStep>)
    decreases |steps|
  {
    steps == [] || (PoolEnabled(p, steps[0]) && PoolRuns(PoolDo(p, steps[0]), steps[1..]))
  }

  function PoolEnd(p: Pool, steps: seq<PoolStep>): Pool
    requires PoolRuns(p, steps)
    decreases |steps|
  {
    if steps == [] then p else PoolEnd(PoolDo(p, steps[0]), steps[1..])
  }

  function Wakeups(steps: seq<PoolStep>): nat
    decreases |steps|
  {
    if steps == [] then 0 else (if Wakeup(steps[0]) then 1 else 0) + Wakeups(steps[1..])
  }

  lemma {:induction false} InvRun(p: Pool, steps: seq<PoolStep>)
    requires Inv(p) && PoolRuns(p, steps)
    ensures Inv(PoolEnd(p, steps))
    ensures Work(PoolEnd(p, steps)) <= Work(p) - |steps| + 4 * Wakeups(steps)
    decreases |steps|
  {
    hide NoStranded, Roles, Enough, Accounted, Work;
    if steps != [] {
      InvStep(p, steps[0]);
      StepOfWork(p, steps[0]);
      InvRun(PoolDo(p, steps[0]), steps[1..]);
    }
  }

  lemma StepOfWork(p: Pool, a: PoolStep)
    requires Inv(p) && PoolEnabled(p, a)
    ensures Work(PoolDo(p, a)) <= Work(p) - 1 + if Wakeup(a) then 4 else 0
  {
    WorkStep(p, a);
  }

  /** With a slot in the queue, no run is longer than the work there was to do plus four
      steps for every timeout and spurious wake-up in it. */
  lemma ShutdownTerminates(p: Pool, steps: seq<PoolStep>)
    requires ShutdownStart(p) && p.q.capacity >= 1 && PoolRuns(p, steps)
    ensures |steps| <= Work(p) + 4 * Wakeups(steps)
  {
    StartInv(p);
    InvRun(p, steps);
    WorkNonNegative(PoolEnd(p, steps));
  }

  /** From anywhere in a shutdown, letting threads move that can leads to the joining
      of all workers. */
  lemma {:induction false} ReachJoined(p: Pool) returns (steps: seq<PoolStep>)
    requires Inv(p)
    ensures PoolRuns(p, steps) && Joined(PoolEnd(p, steps))
    decreases WorkLeft(p)
  {
    hide Inv, Joined, PoolEnabled, PoolDo, Work;
    if Joined(p) {
      return [];
    }
    var a := NoDeadlock(p);
    InvStep(p, a);
    LessWork(p, a);
    var rest := ReachJoined(PoolDo(p, a));
    steps := [a] + rest;
    assert steps[1..] == rest;
  }

  function WorkLeft(p: Pool): nat {
    if Work(p) < 0 then 0 else Work(p)
  }

  lemma LessWork(p: Pool, a: PoolStep)
    requires Inv(p) && PoolEnabled(p, a) && !Wakeup(a)
    ensures WorkLeft(PoolDo(p, a)) < WorkLeft(p)
  {
    InvStep(p, a);
    WorkStep(p, a);
    WorkNonNegative(PoolDo(p, a));
    hide Work, PoolDo, PoolEnabled;
  }

  // ----- A queue of size zero ---------------------------------------------------

  /** The destructor still has a terminate to post, and the queue holds nothing. */
  predicate Unposted(p: Pool) {
    p.q.capacity == 0 && p.q.items == [] && p.postsLeft + PostingIn(p.q, p.owner) > 0
  }

  lemma UnpostedStep(p: Pool, a: PoolStep)
    requires Roles(p) && Accounted(p) && Unposted(p) && PoolEnabled(p, a)
    ensures Unposted(PoolDo(p, a))
  {
    if a.Inner? && a.e.NotifyPop? {
      PostingWake(p.q, a.e.t, a.e.woken, p.owner, KFullAsleep);
    } else if a.Inner? && a.e.NotifyPush? {
      PostingWake(p.q, a.e.t, a.e.woken, p.owner, KEmptyAsleep);
    }
  }

  /** With room for no message the destructor never returns: the condition that the
      queue has a slot, under which NoDeadlock holds, cannot be dropped. */
  lemma {:induction false} ZeroCapacityHangs(p: Pool, steps: seq<PoolStep>)
    requires Roles(p) && Accounted(p) && Unposted(p) && PoolRuns(p, steps)
    ensures !Joined(PoolEnd(p, steps))
    decreases |steps|
  {
    if steps != [] {
      UnpostedStep(p, steps[0]);
      RolesKept(p, steps[0]);
      AccountedKept(p, steps[0]);
      hide Roles, Accounted, Unposted;
      ZeroCapacityHangs(PoolDo(p, steps[0]), steps[1..]);
    }
  }

  lemma NoSlotNoJoin(p: Pool, steps: seq<PoolStep>)
    requires ShutdownStart(p) && p.q.capacity == 0 && PoolRuns(p, steps)
    ensures !Joined(PoolEnd(p, steps))
  {
    ZeroCapacityHangs(p, steps);
  }

  ghost predicate CanReturn(p: Pool) {
    exists steps :: PoolRuns(p, steps) && Joined(PoolEnd(p, steps))
  }

  /** The destructor can return if and only if the queue has a slot. */
  lemma ReturnsIffSlot(p: Pool)
    requires ShutdownStart(p)
    ensures CanReturn(p) <==> p.q.capacity >= 1
  {
    if p.q.capacity >= 1 {
      StartInv(p);
      hide ShutdownStart, Inv, Joined, PoolRuns, PoolEnd;
      var steps := ReachJoined(p);
    } else {
      forall steps | PoolRuns(p, steps)
        ensures !Joined(PoolEnd(p, steps))
      {
        NoSlotNoJoin(p, steps);
      }
    }
  }

  // ----- Drained ------------------------------------------------------------------

  function TerminateTimes(n: nat): (s: seq<Msg>)
    ensures |s| == n && forall i :: 0 <= i < n ==> s[i] == Terminate
  {
    seq(n, _ => Terminate)
  }

  /** Everything popped so far, then everything queued, then the posts to come. */
  function Agenda(q: Sys<Msg>, owner: nat, postsLeft: nat): seq<Msg> {
    q.log.popped + q.items + TerminateTimes(postsLeft + PostingIn(q, owner))
  }

  lemma AgendaPush(q: Sys<Msg>, owner: nat, postsLeft: nat)
    requires owner in q.threads && q.threads[owner] == Producing(Terminate)
    ensures var z := Do(q, TryPush(owner));
            Agenda(z, owner, postsLeft) == Agenda(q, owner, postsLeft) && z.log.dropped == q.log.dropped
  {
    if |q.items| < q.capacity {
      var k := postsLeft + 1;
      assert TerminateTimes(k) == [Terminate] + TerminateTimes(k - 1);
      assert q.log.popped + q.items + ([Terminate] + TerminateTimes(k - 1))
          == q.log.popped + (q.items + [Terminate]) + TerminateTimes(k - 1);
    }
  }

  lemma AgendaPop(q: Sys<Msg>, owner: nat, postsLeft: nat, t: nat)
    requires t != owner && Is(q, t, KPopping)
    ensures Agenda(Do(q, TryPop(t)), owner, postsLeft) == Agenda(q, owner, postsLeft)
  {
    if q.items != [] {
      assert q.log.popped + q.items == q.log.popped + [q.items[0]] + q.items[1..];
    }
  }

  lemma AgendaKept(p: Pool, a: PoolStep)
    requires Roles(p) && PoolEnabled(p, a)
    ensures var z := PoolDo(p, a);
            Agenda(z.q, z.owner, z.postsLeft) == Agenda(p.q, p.owner, p.postsLeft)
    ensures PoolDo(p, a).q.log.dropped == p.q.log.dropped && PoolDo(p, a).owner == p.owner
  {
    hide TerminateTimes;
    if a.Inner? {
      hide Roles;
      AgendaInside(p, a.e);
    }
  }

  lemma AgendaInside(p: Pool, e: Step<Msg>)
    requires Roles(p) && PoolEnabled(p, Inner(e))
    ensures Agenda(Do(p.q, e), p.owner, p.postsLeft) == Agenda(p.q, p.owner, p.postsLeft)
    ensures Do(p.q, e).log.dropped == p.q.log.dropped
  {
    hide TerminateTimes;
    match e
    case TryPush(t) => AgendaPush(p.q, p.owner, p.postsLeft);
    case TryPop(t) => AgendaPop(p.q, p.owner, p.postsLeft, t);
    case NotifyPush(t, woken) => PostingWake(p.q, t, woken, p.owner, KEmptyAsleep);
    case NotifyPop(t, woken) => PostingWake(p.q, t, woken, p.owner, KFullAsleep);
    case _ =>
  }

  lemma {:induction false} AgendaRun(p: Pool, steps: seq<PoolStep>)
    requires Inv(p) && PoolRuns(p, steps)
    ensures var z := PoolEnd(p, steps);
            && Agenda(z.q, z.owner, z.postsLeft) == Agenda(p.q, p.owner, p.postsLeft)
            && z.q.log.dropped == p.q.log.dropped && z.owner == p.owner
    decreases |steps|
  {
    hide NoStranded, Roles, Enough, Accounted, Agenda;
    if steps != [] {
      InvStep(p, steps[0]);
      AgendaKept(p, steps[0]);
      AgendaRun(PoolDo(p, steps[0]), steps[1..]);
    }
  }

  /** When all workers have been joined the queue is empty: every message accepted
      and not overrun has been popped once, in order, before one terminate for each
      of the workers, and each of those messages has been handled. */
  lemma ShutdownDrains(p: Pool, steps: seq<PoolStep>)
    requires ShutdownStart(p) && PoolRuns(p, steps) && Joined(PoolEnd(p, steps))
    ensures p.q.capacity >= 1
    ensures var z := PoolEnd(p, steps);
            && z.q.items == []
            && z.q.log.popped == p.q.log.popped + p.q.items + TerminateTimes(|p.live|)
            && z.q.log.dropped == p.q.log.dropped
            && (forall i: nat :: i in z.processed <==> i < |z.q.log.popped|) && z.holding.Keys == {}
  {
    hide PoolRuns, PoolEnd, Joined, ShutdownStart, Inv, Agenda, TerminateTimes, Terminates;
    if p.q.capacity == 0 {
      NoSlotNoJoin(p, steps);
    }
    StartInv(p);
    InvRun(p, steps);
    AgendaRun(p, steps);
    Drained(p, PoolEnd(p, steps));
  }

  lemma Drained(p: Pool, z: Pool)
    requires ShutdownStart(p) && Inv(z) && Joined(z) && z.owner == p.owner
    requires Agenda(z.q, z.owner, z.postsLeft) == Agenda(p.q, p.owner, p.postsLeft)
    ensures z.q.items == [] && z.q.log.popped == p.q.log.popped + p.q.items + TerminateTimes(|p.live|)
    ensures (forall i: nat :: i in z.processed <==> i < |z.q.log.popped|) && z.holding.Keys == {}
  {
    NobodyHolds(z);
    BookClosed(BookOf(z));
    NothingOutstanding(z);
    NothingToPost(p);
    hide NoStranded, Roles, Enough, Accounted, ShutdownStart, BookOk, Terminates, PostingIn;
    assert TerminateTimes(0) == [];
    if z.q.items != [] {
      LastIsTerminate(z.q.log.popped, z.q.items, p.q.log.popped + p.q.items, |p.live|);
    }
  }

  lemma NobodyHolds(z: Pool)
    requires Inv(z) && Joined(z)
    ensures z.holding.Keys == {} && BookOk(BookOf(z))
  {
    hide NoStranded, Enough, BookOk;
    assert forall t :: t in z.holding ==> Is(z.q, t, KPopDone);
  }

  lemma NothingOutstanding(z: Pool)
    requires Enough(z) && Joined(z)
    ensures Terminates(z.q.items) == 0 && PostingIn(z.q, z.owner) == 0
  {
    hide HoldingTerminate, Terminates;
  }

  lemma NothingToPost(p: Pool)
    requires ShutdownStart(p)
    ensures PostingIn(p.q, p.owner) == 0 && |p.live| == p.postsLeft > 0
  {
    hide NoStranded, Roles, Accounted;
  }

  lemma BookClosed(b: Book)
    requires BookOk(b) && b.holding.Keys == {}
    ensures forall i: nat :: i in b.processed <==> i < b.popped
  {
  }

  /** What is left behind the last terminate includes that terminate. */
  lemma LastIsTerminate(x: seq<Msg>, items: seq<Msg>, y: seq<Msg>, n: nat)
    requires n > 0 && x + items == y + TerminateTimes(n) && items != []
    ensures Terminates(items) > 0
  {
    var k := |x + items| - 1;
    assert (x + items)[k] == items[|items| - 1];
    assert (y + TerminateTimes(n))[k] == Terminate;
  }
}
