/** The fault queue of queue.c: a ring of 128 requests with an eventfd counter beside it. */
module FaultQueue {
  const CAPACITY: nat := 128

  datatype PageRequest = PageRequest(pageIndex: nat, isWrite: bool)

  /** The slot i places after the head. */
  function Slot(head: nat, i: nat): (slot: nat)
    ensures slot < CAPACITY
  {
    (head + i) % CAPACITY
  }

  /** The n requests from the head of a ring. */
  function InRing(data: seq<PageRequest>, head: nat, n: nat): (s: seq<PageRequest>)
    requires |data| == CAPACITY
  {
    seq(n, i requires 0 <= i < n => data[Slot(head, i)])
  }

  lemma SlotValue(head: nat, i: nat)
    requires head < CAPACITY && i <= CAPACITY
    ensures Slot(head, i) == if head + i < CAPACITY then head + i else head + i - CAPACITY
  {
  }

  lemma AppendToRing(data: seq<PageRequest>, head: nat, n: nat, req: PageRequest)
    requires |data| == CAPACITY && head < CAPACITY && n < CAPACITY
    ensures InRing(data[Slot(head, n) := req], head, n + 1) == InRing(data, head, n) + [req]
    ensures Slot(Slot(head, n), 1) == Slot(head, n + 1)
  {
    var after := data[Slot(head, n) := req];
    SlotValue(head, n);
    SlotValue(head, n + 1);
    SlotValue(Slot(head, n), 1);
    forall i: nat | i < n ensures after[Slot(head, i)] == data[Slot(head, i)] {
      SlotValue(head, i);
    }
  }

  lemma RemoveFromRing(data: seq<PageRequest>, head: nat, n: nat)
    requires |data| == CAPACITY && head < CAPACITY && 0 < n <= CAPACITY
    ensures InRing(data, head, n) == [data[head]] + InRing(data, Slot(head, 1), n - 1)
    ensures Slot(Slot(head, 1), n - 1) == Slot(head, n)
  {
    SlotValue(head, 0);
    SlotValue(head, 1);
    SlotValue(head, n);
    SlotValue(Slot(head, 1), n - 1);
    forall i: nat | i < n - 1 ensures Slot(Slot(head, 1), i) == Slot(head, i + 1) {
      SlotValue(Slot(head, 1), i);
      SlotValue(head, i + 1);
    }
  }

  class RequestQueue {
    const data: array<PageRequest>
    var head: nat
    var tail: nat
    var size: nat
    /** The eventfd behind notify_fd. */
    var counter: nat

    ghost predicate Valid()
      reads this, data
    {
      && data.Length == CAPACITY
      && head < CAPACITY && size <= CAPACITY
      && tail == Slot(head, size)
    }

    /** The queued requests, oldest first. */
    ghost function Contents(): (s: seq<PageRequest>)
      requires Valid()
      reads this, data
    {
      InRing(data[..], head, size)
    }

    /** queue_init */
    constructor ()
      ensures Valid() && Contents() == [] && counter == 0 && fresh(data)
    {
      data := new PageRequest[CAPACITY](_ => PageRequest(0, false));
      head, tail, size, counter := 0, 0, 0, 0;
    }

    /** queue_push */
    method Push(req: PageRequest) returns (result: int)
      requires Valid()
      modifies this, data
      ensures Valid()
      ensures result == if |old(Contents())| == CAPACITY then -1 else 0
      ensures Contents() == if result == 0 then old(Contents()) + [req] else old(Contents())
      ensures counter == if result == 0 then old(counter) + 1 else old(counter)
    {
      if size == CAPACITY {
        return -1;
      }
      AppendToRing(data[..], head, size, req);
      data[tail] := req;
      tail := (tail + 1) % CAPACITY;
      size := size + 1;
      counter := counter + 1;
      result := 0;
    }

    /** queue_pop */
    method Pop() returns (result: int, req: PageRequest)
      requires Valid()
      modifies this`head, this`size
      ensures Valid()
      ensures result == if old(Contents()) == [] then -1 else 0
      ensures result == 0 ==> old(Contents()) == [req] + Contents()
      ensures result == -1 ==> Contents() == []
    {
      if size == 0 {
        return -1, PageRequest(0, false);
      }
      req := data[head];
      RemoveFromRing(data[..], head, size);
      head := (head + 1) % CAPACITY;
      size := size - 1;
      result := 0;
    }

    /** read() on the eventfd: the counter, reset to zero; nothing if it is zero. */
    method ReadCounter() returns (count: nat)
      modifies this`counter
      ensures count == old(counter) && counter == 0
    {
      count := counter;
      counter := 0;
    }
  }
}
