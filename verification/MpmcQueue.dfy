/** The blocking queue: a ring buffer under one mutex and two condition variables,
    with any number of producers and consumers. */
module MpmcQueue {
  import opened CircularQ

  /** The lock-protected sections, on the ring buffer itself. */
  class Queue<T(0)> {
    const q: CircularQ<T>

    ghost predicate Valid()
      reads this, q, q.v
    {
      q.Valid()
    }

    constructor (maxItems: nat)
      ensures Valid() && fresh(q) && fresh(q.v)
      ensures q.Capacity() == maxItems && q.Contents() == [] && q.overrunCounter == 0
    {
      q := new CircularQ<T>(maxItems);
    }

    /** One turn of enqueue's wait: evaluates the predicate and pushes if it holds. */
    method EnqueueTurn(item: T) returns (pushed: bool)
      requires Valid()
      modifies q, q.v
      ensures Valid() && pushed == (|old(q.Contents())| < q.Capacity())
      ensures q.Contents() == if pushed then old(q.Contents()) + [item] else old(q.Contents())
      ensures q.overrunCounter == old(q.overrunCounter)
    {
      var full := q.Full();
      if !full {
        q.PushBack(item);
      }
      pushed := !full;
    }

    method EnqueueNowait(item: T)
      requires Valid()
      modifies q, q.v
      ensures Valid() && q.Contents() == Pushed(old(q.Contents()), q.Capacity(), item)
      ensures q.overrunCounter == old(q.overrunCounter) + if |old(q.Contents())| == q.Capacity() then 1 else 0
    {
      q.PushBack(item);
    }

    /** One turn of dequeue_for's wait: pops if the queue is not empty. */
    method DequeueTurn() returns (found: bool, popped: T)
      requires Valid()
      modifies q
      ensures Valid() && found == (old(q.Contents()) != [])
      ensures if found then old(q.Contents()) == [popped] + q.Contents() else q.Contents() == old(q.Contents())
      ensures q.overrunCounter == old(q.overrunCounter)
    {
      var empty := q.Empty();
      popped := *;
      if !empty {
        popped := q.PopFront();
      }
      found := !empty;
    }
  }

  // ----- Threads --------------------------------------------------------------

  /** Where a thread is inside a call. A thread that has pushed or popped has left
      the lock and has yet to call notify_one. */
  datatype Pc<T> =
    | Producing(item: T)
    | FullAsleep(item: T)
    | Overrunning(item: T)
    | PushDone
    | Popping(expired: bool)
    | EmptyAsleep
    | PopDone(item: T)

  datatype Kind = KProducing | KFullAsleep | KOverrunning | KPushDone | KPopping | KEmptyAsleep | KPopDone

  function KindOf<T>(pc: Pc<T>): Kind {
    match pc
    case Producing(_) => KProducing
    case FullAsleep(_) => KFullAsleep
    case Overrunning(_) => KOverrunning
    case PushDone => KPushDone
    case Popping(_) => KPopping
    case EmptyAsleep => KEmptyAsleep
    case PopDone(_) => KPopDone
  }

  /** Everything that was ever pushed, popped and overrun, in order. */
  datatype History<T> = History(pushed: seq<T>, popped: seq<T>, dropped: seq<T>)

  datatype Sys<T> = Sys(capacity: nat, items: seq<T>, threads: map<nat, Pc<T>>, log: History<T>) {
    function Set(t: nat, pc: Pc<T>): Sys<T> {
      this.(threads := threads[t := pc])
    }

    function Leave(t: nat): Sys<T> {
      this.(threads := threads - {t})
    }
  }

  function Those<T>(m: map<nat, Pc<T>>, k: Kind): set<nat> {
    set t | t in m && KindOf(m[t]) == k
  }

  predicate Is<T>(s: Sys<T>, t: nat, k: Kind) {
    t in s.threads && KindOf(s.threads[t]) == k
  }

  datatype Step<T> =
    | StartEnqueue(t: nat, item: T)
    | StartNowait(t: nat, item: T)
    | StartDequeue(t: nat)
    | TryPush(t: nat)
    | PushNow(t: nat)
    | NotifyPush(t: nat, woken: nat)
    | TryPop(t: nat)
    | NotifyPop(t: nat, woken: nat)
    | Timeout(t: nat)
    | Spurious(t: nat)

  /** notify_one wakes one waiting thread when there is any. */
  predicate Wakes<T>(s: Sys<T>, asleep: Kind, woken: nat) {
    Those(s.threads, asleep) != {} ==> Is(s, woken, asleep)
  }

  predicate Enabled<T>(s: Sys<T>, e: Step<T>) {
    match e
    case StartEnqueue(t, _) => t !in s.threads
    case StartNowait(t, _) => t !in s.threads
    case StartDequeue(t) => t !in s.threads
    case TryPush(t) => Is(s, t, KProducing)
    case PushNow(t) => Is(s, t, KOverrunning)
    case NotifyPush(t, woken) => Is(s, t, KPushDone) && Wakes(s, KEmptyAsleep, woken)
    case TryPop(t) => Is(s, t, KPopping)
    case NotifyPop(t, woken) => Is(s, t, KPopDone) && Wakes(s, KFullAsleep, woken)
    case Timeout(t) => Is(s, t, KEmptyAsleep)
    case Spurious(t) => Is(s, t, KEmptyAsleep) || Is(s, t, KFullAsleep)
  }

  /** A push: nothing is lost below capacity, else the oldest of all is. */
  function Push<T>(s: Sys<T>, x: T): Sys<T> {
    var h := s.log.(pushed := s.log.pushed + [x]);
    s.(items := Pushed(s.items, s.capacity, x),
       log := if |s.items| < s.capacity then h else h.(dropped := h.dropped + [(s.items + [x])[0]]))
  }

  function Awake<T>(pc: Pc<T>): Pc<T> {
    match pc
    case FullAsleep(x) => Producing(x)
    case EmptyAsleep => Popping(false)
    case _ => pc
  }

  function Wake<T>(s: Sys<T>, asleep: Kind, woken: nat): Sys<T> {
    if Is(s, woken, asleep) then s.Set(woken, Awake(s.threads[woken])) else s
  }

  function Do<T>(s: Sys<T>, e: Step<T>): Sys<T>
    requires Enabled(s, e)
  {
    match e
    case StartEnqueue(t, x) => s.Set(t, Producing(x))
    case StartNowait(t, x) => s.Set(t, Overrunning(x))
    case StartDequeue(t) => s.Set(t, Popping(false))
    case TryPush(t) =>
      var x := s.threads[t].item;
      if |s.items| < s.capacity then Push(s, x).Set(t, PushDone) else s.Set(t, FullAsleep(x))
    case PushNow(t) => Push(s, s.threads[t].item).Set(t, PushDone)
    case NotifyPush(t, woken) => Wake(s, KEmptyAsleep, woken).Leave(t)
    case TryPop(t) =>
      if s.items != [] then
        s.(items := s.items[1..], log := s.log.(popped := s.log.popped + [s.items[0]])).Set(t, PopDone(s.items[0]))
      else if s.threads[t].expired then s.Leave(t)
      else s.Set(t, EmptyAsleep)
    case NotifyPop(t, woken) => Wake(s, KFullAsleep, woken).Leave(t)
    case Timeout(t) => s.Set(t, Popping(true))
    case Spurious(t) => s.Set(t, Awake(s.threads[t]))
  }

  // ----- No stranded waiter ---------------------------------------------------

  /** If a consumer sleeps, there are enough awake consumers and notifications on
      their way for the items there are; likewise producers and free slots. */
  predicate NoStranded<T>(s: Sys<T>) {
    && |s.items| <= s.capacity
    && (Those(s.threads, KEmptyAsleep) != {} ==>
          |Those(s.threads, KPopping)| + |Those(s.threads, KPushDone)| >= |s.items|)
    && (Those(s.threads, KFullAsleep) != {} ==>
          |Those(s.threads, KProducing)| + |Those(s.threads, KPopDone)| >= s.capacity - |s.items|)
  }

  lemma SetThread<T>(m: map<nat, Pc<T>>, t: nat, pc: Pc<T>, k: Kind)
    ensures Those(m[t := pc], k) == if k == KindOf(pc) then Those(m, k) + {t} else Those(m, k) - {t}
  {
  }

  lemma LeaveThread<T>(m: map<nat, Pc<T>>, t: nat, k: Kind)
    ensures Those(m - {t}, k) == Those(m, k) - {t}
  {
  }

  /** The size of a kind after thread t moved to pc. */
  lemma SetCount<T>(m: map<nat, Pc<T>>, t: nat, pc: Pc<T>, k: Kind)
    ensures |Those(m[t := pc], k)| ==
            |Those(m, k)| + (if k == KindOf(pc) then 1 else 0) - (if t in m && KindOf(m[t]) == k then 1 else 0)
    ensures k != KindOf(pc) && Those(m, k) == {} ==> Those(m[t := pc], k) == {}
  {
    SetThread(m, t, pc, k);
  }

  lemma LeaveCount<T>(m: map<nat, Pc<T>>, t: nat, k: Kind)
    ensures |Those(m - {t}, k)| == |Those(m, k)| - (if t in m && KindOf(m[t]) == k then 1 else 0)
    ensures Those(m, k) == {} ==> Those(m - {t}, k) == {}
  {
    LeaveThread(m, t, k);
  }

  function Count<T>(s: Sys<T>, k: Kind): nat {
    |Those(s.threads, k)|
  }

  /** How the counts change when a thread moves, or leaves. */
  lemma Moves<T>(s: Sys<T>, t: nat, pc: Pc<T>)
    ensures forall k ::
      Count(s.Set(t, pc), k) == Count(s, k) + (if k == KindOf(pc) then 1 else 0) - (if Is(s, t, k) then 1 else 0)
  {
    forall k
      ensures Count(s.Set(t, pc), k) == Count(s, k) + (if k == KindOf(pc) then 1 else 0) - (if Is(s, t, k) then 1 else 0)
    {
      SetCount(s.threads, t, pc, k);
    }
  }

  lemma Leaves<T>(s: Sys<T>, t: nat)
    ensures forall k :: Count(s.Leave(t), k) == Count(s, k) - (if Is(s, t, k) then 1 else 0)
  {
    forall k
      ensures Count(s.Leave(t), k) == Count(s, k) - (if Is(s, t, k) then 1 else 0)
    {
      LeaveCount(s.threads, t, k);
    }
  }

  /** The invariant in numbers. */
  lemma InNumbers<T>(s: Sys<T>)
    ensures NoStranded(s) <==>
      && |s.items| <= s.capacity
      && (Count(s, KEmptyAsleep) > 0 ==> Count(s, KPopping) + Count(s, KPushDone) >= |s.items|)
      && (Count(s, KFullAsleep) > 0 ==> Count(s, KProducing) + Count(s, KPopDone) >= s.capacity - |s.items|)
  {
  }

  /** A notification moves one sleeper, if there is any, and the notifier is gone. */
  lemma Notified<T>(s: Sys<T>, t: nat, woken: nat, notifier: Kind, asleep: Kind, awake: Kind)
    requires Is(s, t, notifier) && Wakes(s, asleep, woken)
    requires (notifier == KPushDone && asleep == KEmptyAsleep && awake == KPopping)
          || (notifier == KPopDone && asleep == KFullAsleep && awake == KProducing)
    ensures var z := Wake(s, asleep, woken).Leave(t);
            var one := if Count(s, asleep) > 0 then 1 else 0;
            forall k :: Count(z, k) == Count(s, k) + (if k == awake then one else 0)
                                     - (if k == asleep then one else 0) - (if k == notifier then 1 else 0)
  {
    if Is(s, woken, asleep) {
      assert woken in Those(s.threads, asleep);
      Moves(s, woken, Awake(s.threads[woken]));
    } else {
      assert Those(s.threads, asleep) == {};
    }
    Leaves(Wake(s, asleep, woken), t);
  }

  /** The counts after thread t has moved to pc, whatever else of the queue changed. */
  lemma MovedTo<T>(s: Sys<T>, z: Sys<T>, t: nat, pc: Pc<T>)
    requires z.threads == s.Set(t, pc).threads
    ensures forall k ::
      Count(z, k) == Count(s, k) + (if k == KindOf(pc) then 1 else 0) - (if Is(s, t, k) then 1 else 0)
  {
    hide Count;
    Moves(s, t, pc);
    SameThreads(z, s.Set(t, pc));
  }

  lemma PushKeeps<T>(s: Sys<T>, e: Step<T>)
    requires NoStranded(s) && Enabled(s, e) && (e.TryPush? || e.PushNow?)
    ensures NoStranded(Do(s, e))
  {
    hide NoStranded, Those, Count;
    var z := Do(s, e);
    InNumbers(s);
    InNumbers(z);
    MovedTo(s, z, e.t, z.threads[e.t]);
  }

  lemma PopKeeps<T>(s: Sys<T>, t: nat)
    requires NoStranded(s) && Is(s, t, KPopping)
    ensures NoStranded(Do(s, TryPop(t)))
  {
    hide NoStranded, Those, Count;
    var z := Do(s, TryPop(t));
    InNumbers(s);
    InNumbers(z);
    if t in z.threads {
      MovedTo(s, z, t, z.threads[t]);
    } else {
      Leaves(s, t);
    }
  }

  lemma SameThreads<T>(s: Sys<T>, z: Sys<T>)
    requires s.threads == z.threads
    ensures forall k :: Count(s, k) == Count(z, k)
  {
  }

  lemma NotifyKeeps<T>(s: Sys<T>, e: Step<T>)
    requires NoStranded(s) && Enabled(s, e) && (e.NotifyPush? || e.NotifyPop?)
    ensures NoStranded(Do(s, e))
  {
    hide NoStranded, Those, Count;
    InNumbers(s);
    InNumbers(Do(s, e));
    match e
    case NotifyPush(t, woken) => Notified(s, t, woken, KPushDone, KEmptyAsleep, KPopping);
    case NotifyPop(t, woken) => Notified(s, t, woken, KPopDone, KFullAsleep, KProducing);
  }

  /** Every step, of every thread, keeps the invariant. */
  lemma NoStrandedStep<T>(s: Sys<T>, e: Step<T>)
    requires NoStranded(s) && Enabled(s, e)
    ensures NoStranded(Do(s, e))
  {
    hide NoStranded, Do;
    if e.TryPush? || e.PushNow? {
      PushKeeps(s, e);
    } else if e.TryPop? {
      PopKeeps(s, e.t);
    } else if e.NotifyPush? || e.NotifyPop? {
      NotifyKeeps(s, e);
    } else {
      OtherKeeps(s, e);
    }
  }

  lemma OtherKeeps<T>(s: Sys<T>, e: Step<T>)
    requires NoStranded(s) && Enabled(s, e)
    requires e.StartEnqueue? || e.StartNowait? || e.StartDequeue? || e.Timeout? || e.Spurious?
    ensures NoStranded(Do(s, e))
  {
    hide NoStranded, Those, Count;
    InNumbers(s);
    InNumbers(Do(s, e));
    Moves(s, e.t, Do(s, e).threads[e.t]);
  }

  predicate Runs<T>(s: Sys<T>, steps: seq<Step<T>>)
    decreases |steps|
  {
    steps == [] || (Enabled(s, steps[0]) && Runs(Do(s, steps[0]), steps[1..]))
  }

  function End<T>(s: Sys<T>, steps: seq<Step<T>>): Sys<T>
    requires Runs(s, steps)
    decreases |steps|
  {
    if steps == [] then s else End(Do(s, steps[0]), steps[1..])
  }

  function Initial<T>(capacity: nat): Sys<T> {
    Sys(capacity, [], map[], History([], [], []))
  }

  lemma {:induction false} NoStrandedRun<T>(s: Sys<T>, steps: seq<Step<T>>)
    requires NoStranded(s) && Runs(s, steps)
    ensures NoStranded(End(s, steps))
    decreases |steps|
  {
    if steps != [] {
      NoStrandedStep(s, steps[0]);
      NoStrandedRun(Do(s, steps[0]), steps[1..]);
    }
  }

  /** In no interleaving does a consumer sleep beside messages that the consumers awake
      and the notifications on their way are too few for, or a producer beside such
      free slots; in particular never with nothing left to happen that will see to them. */
  lemma NobodyStranded<T>(capacity: nat, steps: seq<Step<T>>)
    requires Runs(Initial<T>(capacity), steps)
    ensures NoStranded(End(Initial<T>(capacity), steps))
    ensures var s := End(Initial<T>(capacity), steps);
            && (Those(s.threads, KEmptyAsleep) != {} && s.items != [] ==>
                  exists t :: Is(s, t, KPopping) || Is(s, t, KPushDone))
            && (Those(s.threads, KFullAsleep) != {} && |s.items| < s.capacity ==>
                  exists t :: Is(s, t, KProducing) || Is(s, t, KPopDone))
  {
    var s := End(Initial<T>(capacity), steps);
    assert Those(Initial<T>(capacity).threads, KEmptyAsleep) == {};
    assert Those(Initial<T>(capacity).threads, KFullAsleep) == {};
    NoStrandedRun(Initial<T>(capacity), steps);
    Someone(s, KPopping, KPushDone);
    Someone(s, KProducing, KPopDone);
  }

  lemma Someone<T>(s: Sys<T>, k: Kind, l: Kind)
    ensures Count(s, k) + Count(s, l) > 0 ==> exists t :: Is(s, t, k) || Is(s, t, l)
  {
    if Count(s, k) > 0 {
      var t :| t in Those(s.threads, k);
      assert Is(s, t, k);
    } else if Count(s, l) > 0 {
      var t :| t in Those(s.threads, l);
      assert Is(s, t, l);
    }
  }

  // ----- Timeouts -------------------------------------------------------------

  predicate HasTimedOut<T>(s: Sys<T>, t: nat) {
    t in s.threads && s.threads[t] == Popping(true)
  }

  lemma {:induction false} StaysTimedOut<T>(s: Sys<T>, t: nat, steps: seq<Step<T>>)
    requires HasTimedOut(s, t) && Runs(s, steps) && forall k :: 0 <= k < |steps| ==> steps[k].t != t
    ensures HasTimedOut(End(s, steps), t)
    decreases |steps|
  {
    if steps != [] {
      assert steps[0].t != t;
      StaysTimedOut(Do(s, steps[0]), t, steps[1..]);
    }
  }

  /** A dequeue that has timed out ends at its next turn, whatever other threads have done
      in between: with nothing when the queue is empty then, else with the oldest item. */
  lemma TimeoutEndsCall<T>(s: Sys<T>, t: nat, others: seq<Step<T>>)
    requires Enabled(s, Timeout(t)) && Runs(Do(s, Timeout(t)), others)
    requires forall k :: 0 <= k < |others| ==> others[k].t != t
    ensures var z := End(Do(s, Timeout(t)), others);
            && Enabled(z, TryPop(t))
            && var y := Do(z, TryPop(t));
               if z.items == [] then t !in y.threads && y.items == [] && y.log == z.log
               else t in y.threads && y.threads[t] == PopDone(z.items[0]) && y.items == z.items[1..]
  {
    StaysTimedOut(Do(s, Timeout(t)), t, others);
  }

  /** Inside a dequeue that has not timed out, or with its item. */
  predicate Dequeuing<T>(s: Sys<T>, t: nat) {
    t in s.threads && (s.threads[t] == Popping(false) || s.threads[t].EmptyAsleep? || s.threads[t].PopDone?)
  }

  /** A dequeue that has not timed out goes on until it has its item. */
  lemma {:induction false} WaitsForItem<T>(s: Sys<T>, t: nat, steps: seq<Step<T>>)
    requires Dequeuing(s, t) && Runs(s, steps)
    requires forall k :: 0 <= k < |steps| ==> !(steps[k].t == t && (steps[k].Timeout? || steps[k].NotifyPop?))
    ensures Dequeuing(End(s, steps), t)
    decreases |steps|
  {
    if steps != [] {
      assert !(steps[0].t == t && (steps[0].Timeout? || steps[0].NotifyPop?));
      DequeuingStep(s, t, steps[0]);
      WaitsForItem(Do(s, steps[0]), t, steps[1..]);
    }
  }

  lemma DequeuingStep<T>(s: Sys<T>, t: nat, e: Step<T>)
    requires Dequeuing(s, t) && Enabled(s, e) && !(e.t == t && (e.Timeout? || e.NotifyPop?))
    ensures Dequeuing(Do(s, e), t)
  {
  }

  // ----- Conservation ---------------------------------------------------------

  /** s is an interleaving of x and y, each in its own order. */
  ghost predicate Interleaves<T>(s: seq<T>, x: seq<T>, y: seq<T>)
    decreases |s|
  {
    if s == [] then x == [] && y == []
    else
      var last := s[|s| - 1];
      || (x != [] && x[|x| - 1] == last && Interleaves(s[..|s| - 1], x[..|x| - 1], y))
      || (y != [] && y[|y| - 1] == last && Interleaves(s[..|s| - 1], x, y[..|y| - 1]))
  }

  /** Everything pushed, in order, is first what was popped or overrun, each of
      those in order too, and then what the queue still holds. */
  ghost predicate Conserved<T>(items: seq<T>, capacity: nat, log: History<T>) {
    && |items| <= capacity && |items| <= |log.pushed|
    && log.pushed[|log.pushed| - |items|..] == items
    && Interleaves(log.pushed[..|log.pushed| - |items|], log.popped, log.dropped)
  }

  lemma InterleaveFirst<T>(s: seq<T>, x: seq<T>, y: seq<T>, z: T)
    requires Interleaves(s, x, y)
    ensures Interleaves(s + [z], x + [z], y) && Interleaves(s + [z], x, y + [z])
  {
    assert (s + [z])[..|s|] == s && (x + [z])[..|x|] == x && (y + [z])[..|y|] == y;
  }

  lemma Last<T>(s: seq<T>)
    requires s != []
    ensures multiset(s) == multiset(s[..|s| - 1]) + multiset{s[|s| - 1]}
  {
    assert s == s[..|s| - 1] + [s[|s| - 1]];
  }

  lemma {:induction false} InterleaveLength<T>(s: seq<T>, x: seq<T>, y: seq<T>)
    requires Interleaves(s, x, y)
    ensures |s| == |x| + |y| && multiset(s) == multiset(x) + multiset(y)
    decreases |s|
  {
    if s != [] {
      var n := |s| - 1;
      Last(s);
      if x != [] && x[|x| - 1] == s[n] && Interleaves(s[..n], x[..|x| - 1], y) {
        InterleaveLength(s[..n], x[..|x| - 1], y);
        Last(x);
      } else {
        InterleaveLength(s[..n], x, y[..|y| - 1]);
        Last(y);
      }
    }
  }

  lemma ConservedPush<T>(s: Sys<T>, x: T)
    requires Conserved(s.items, s.capacity, s.log)
    ensures Conserved(Push(s, x).items, s.capacity, Push(s, x).log)
  {
    var p, n := s.log.pushed, |s.log.pushed| - |s.items|;
    assert (p + [x])[..n] == p[..n];
    assert (p + [x])[n..] == s.items + [x];
    if |s.items| >= s.capacity {
      var oldest := (s.items + [x])[0];
      assert (p + [x])[n + 1..] == (s.items + [x])[1..];
      assert (p + [x])[..n + 1] == p[..n] + [oldest] by {
        assert (p + [x])[n] == (p + [x])[n..][0];
      }
      InterleaveFirst(p[..n], s.log.popped, s.log.dropped, oldest);
    }
  }

  lemma ConservedPop<T>(items: seq<T>, capacity: nat, log: History<T>)
    requires Conserved(items, capacity, log) && items != []
    ensures Conserved(items[1..], capacity, log.(popped := log.popped + [items[0]]))
  {
    var p, n := log.pushed, |log.pushed| - |items|;
    assert p[n..][0] == p[n] && p[n + 1..] == p[n..][1..];
    assert p[..n + 1] == p[..n] + [items[0]];
    InterleaveFirst(p[..n], log.popped, log.dropped, items[0]);
  }

  lemma ConservedStep<T>(s: Sys<T>, e: Step<T>)
    requires Conserved(s.items, s.capacity, s.log) && Enabled(s, e)
    ensures Conserved(Do(s, e).items, s.capacity, Do(s, e).log) && Do(s, e).capacity == s.capacity
    ensures !e.PushNow? ==> Do(s, e).log.dropped == s.log.dropped
  {
    hide Conserved;
    match e
    case TryPush(t) =>
      ConservedPush(s, s.threads[t].item);
    case PushNow(t) =>
      ConservedPush(s, s.threads[t].item);
    case TryPop(t) =>
      if s.items != [] {
        ConservedPop(s.items, s.capacity, s.log);
      }
    case _ =>
  }

  lemma {:induction false} ConservedRun<T>(s: Sys<T>, steps: seq<Step<T>>)
    requires Conserved(s.items, s.capacity, s.log) && Runs(s, steps)
    ensures Conserved(End(s, steps).items, s.capacity, End(s, steps).log)
    ensures (forall k :: 0 <= k < |steps| ==> !steps[k].PushNow?) ==> End(s, steps).log.dropped == s.log.dropped
    decreases |steps|
  {
    hide Conserved;
    if steps != [] {
      ConservedStep(s, steps[0]);
      ConservedRun(Do(s, steps[0]), steps[1..]);
    }
  }

  /** Over any run every message pushed is popped once, held, or overrun; what is
      popped comes in the order of the pushes; and without enqueue_nowait nothing
      is ever overrun. */
  lemma NothingLost<T>(capacity: nat, steps: seq<Step<T>>)
    requires Runs(Initial<T>(capacity), steps)
    ensures var s := End(Initial<T>(capacity), steps);
            && |s.log.pushed| == |s.log.popped| + |s.log.dropped| + |s.items|
            && multiset(s.log.pushed) == multiset(s.log.popped) + multiset(s.items) + multiset(s.log.dropped)
            && Interleaves(s.log.pushed[..|s.log.pushed| - |s.items|], s.log.popped, s.log.dropped)
            && s.log.pushed[|s.log.pushed| - |s.items|..] == s.items
    ensures (forall k :: 0 <= k < |steps| ==> !steps[k].PushNow?) ==>
              var s := End(Initial<T>(capacity), steps); s.log.dropped == [] && s.log.pushed == s.log.popped + s.items
  {
    var z := Initial<T>(capacity);
    assert Conserved(z.items, capacity, z.log);
    ConservedRun(z, steps);
    var s := End(z, steps);
    LogAccount(s.items, capacity, s.log);
  }

  lemma LogAccount<T>(items: seq<T>, capacity: nat, log: History<T>)
    requires Conserved(items, capacity, log)
    ensures |log.pushed| == |log.popped| + |log.dropped| + |items|
    ensures multiset(log.pushed) == multiset(log.popped) + multiset(items) + multiset(log.dropped)
    ensures log.dropped == [] ==> log.pushed == log.popped + items
  {
    var p, n := log.pushed, |log.pushed| - |items|;
    InterleaveLength(p[..n], log.popped, log.dropped);
    assert p == p[..n] + items;
    if log.dropped == [] {
      OneSided(p[..n], log.popped);
    }
  }

  lemma {:induction false} OneSided<T>(s: seq<T>, x: seq<T>)
    requires Interleaves(s, x, [])
    ensures s == x
    decreases |s|
  {
    if s != [] {
      OneSided(s[..|s| - 1], x[..|x| - 1]);
      assert s == s[..|s| - 1] + [s[|s| - 1]] && x == x[..|x| - 1] + [s[|s| - 1]];
    }
  }
}
