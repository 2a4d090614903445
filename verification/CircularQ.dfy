/** The ring buffer: a bounded first-in first-out queue that drops the oldest
    item when it overflows. */
module CircularQ {

  /** The bounded queue after x is pushed: at capacity the oldest item goes. */
  function Pushed<T>(s: seq<T>, capacity: nat, x: T): (r: seq<T>)
    ensures |s| <= capacity ==> |r| == if |s| < capacity then |s| + 1 else capacity
  {
    if |s| < capacity then s + [x] else (s + [x])[1..]
  }

  /** The next slot, round the corner. */
  function Next(i: nat, n: nat): (r: nat)
    requires i < n
    ensures r == if i + 1 == n then 0 else i + 1
  {
    (i + 1) % n
  }

  class CircularQ<T(0)> {
    const maxItems: nat
    const v: array<T>
    var head: nat
    var tail: nat
    var overrunCounter: nat

    predicate Valid()
      reads this
    {
      0 < maxItems == v.Length && head < maxItems && tail < maxItems
    }

    function Capacity(): nat
      requires maxItems > 0
    {
      maxItems - 1
    }

    function Contents(): (s: seq<T>)
      reads this, v
      requires Valid()
      ensures |s| <= Capacity()
    {
      if head <= tail then v[head..tail] else v[head..] + v[..tail]
    }

    constructor (capacity: nat)
      ensures Valid() && fresh(v) && Capacity() == capacity && Contents() == [] && overrunCounter == 0
    {
      maxItems := capacity + 1;
      v := new T[capacity + 1];
      head, tail, overrunCounter := 0, 0, 0;
    }

    method PushBack(item: T)
      requires Valid()
      modifies this, v
      ensures Valid()
      ensures Contents() == Pushed(old(Contents()), Capacity(), item)
      ensures overrunCounter == old(overrunCounter) + if |old(Contents())| == Capacity() then 1 else 0
    {
      hide Next;
      ghost var before := Contents();
      v[tail] := item;
      tail := Next(tail, maxItems);
      if tail == head {
        head := Next(head, maxItems);
        overrunCounter := overrunCounter + 1;
        assert |before| == Capacity();
        assert Contents() == (before + [item])[1..];
      } else {
        assert Contents() == before + [item];
      }
    }

    method PopFront() returns (popped: T)
      requires Valid() && Contents() != []
      modifies this
      ensures Valid() && overrunCounter == old(overrunCounter)
      ensures old(Contents()) == [popped] + Contents()
    {
      hide Next;
      popped := v[head];
      head := Next(head, maxItems);
    }

    method Empty() returns (b: bool)
      requires Valid()
      ensures b == (Contents() == [])
    {
      b := tail == head;
    }

    method Full() returns (b: bool)
      requires Valid()
      ensures b == (|Contents()| == Capacity())
    {
      hide Next;
      b := Next(tail, maxItems) == head;
    }
  }
}
