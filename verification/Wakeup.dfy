/** The wakeup protocol between the threads that push faults and the edge-triggered network thread. */
module Wakeup {
  import opened FaultQueue

  /** The network thread with respect to the eventfd: in epoll_wait or busy elsewhere, past epoll_wait with the
      eventfd's event in hand, or in the loop that pops requests. */
  datatype Consumer = Idle | Woken | Draining

  datatype State = State(
    pushed: seq<PageRequest>,     // every request accepted so far
    delivered: seq<PageRequest>,  // every request popped so far
    contents: seq<PageRequest>,   // the ring
    counter: nat,                 // the eventfd
    edge: bool,                   // epoll holds an event for the eventfd
    consumer: Consumer,
    writing: bool)                // a pusher holds the lock: data stored, counter not yet written

  const START := State([], [], [], 0, false, Idle, false)

  /** Store is the first half of queue_push, Notify its write to the eventfd; Wake is epoll_wait returning;
      Read is the read() after it; Pop and Finish are queue_pop returning 0 and -1. */
  datatype Event = Store(req: PageRequest) | Notify | Wake | Read | Pop | Finish

  predicate Enabled(s: State, e: Event) {
    match e
    case Store(_) => !s.writing
    case Notify => s.writing
    case Wake => s.consumer == Idle && s.edge
    case Read => s.consumer == Woken
    case Pop => s.consumer == Draining && !s.writing && s.contents != []
    case Finish => s.consumer == Draining && !s.writing && s.contents == []
  }

  function Next(s: State, e: Event): State
    requires Enabled(s, e)
  {
    match e
    case Store(req) =>
      if |s.contents| == CAPACITY then s
      else s.(pushed := s.pushed + [req], contents := s.contents + [req], writing := true)
    case Notify => s.(counter := s.counter + 1, edge := true, writing := false)
    case Wake => s.(edge := false, consumer := Woken)
    case Read => if s.counter > 0 then s.(counter := 0, consumer := Draining) else s.(consumer := Idle)
    case Pop => s.(delivered := s.delivered + [s.contents[0]], contents := s.contents[1..])
    case Finish => s.(consumer := Idle)
  }

  predicate Legal(s: State, es: seq<Event>)
    decreases |es|
  {
    es == [] || (Enabled(s, es[0]) && Legal(Next(s, es[0]), es[1..]))
  }

  function Run(s: State, es: seq<Event>): State
    requires Legal(s, es)
    decreases |es|
  {
    if es == [] then s else Run(Next(s, es[0]), es[1..])
  }

  /** The requests the run's pushes were told had been queued. */
  function Accepted(s: State, es: seq<Event>): seq<PageRequest>
    requires Legal(s, es)
    decreases |es|
  {
    if es == [] then []
    else (if es[0].Store? && |s.contents| != CAPACITY then [es[0].req] else []) + Accepted(Next(s, es[0]), es[1..])
  }

  ghost predicate Inv(s: State) {
    && s.pushed == s.delivered + s.contents
    && |s.contents| <= CAPACITY
    && (s.contents != [] ==> s.counter > 0 || s.consumer == Draining || s.writing)
    && (s.counter > 0 ==> s.edge || s.consumer == Woken)
  }

  lemma StepKeeps(s: State, e: Event)
    requires Inv(s) && Enabled(s, e)
    ensures Inv(Next(s, e))
  {
    var t := Next(s, e);
    if e.Pop? {
      assert s.contents == [s.contents[0]] + t.contents;
      assert t.pushed == t.delivered + t.contents;
    } else if e.Store? && t != s {
      assert t.pushed == t.delivered + t.contents;
    }
  }

  lemma {:induction false} RunKeeps(s: State, es: seq<Event>)
    requires Inv(s) && Legal(s, es)
    ensures Inv(Run(s, es))
    decreases |es|
  {
    if es != [] {
      StepKeeps(s, es[0]);
      RunKeeps(Next(s, es[0]), es[1..]);
    }
  }

  lemma {:induction false} LogsAccepted(s: State, es: seq<Event>)
    requires Legal(s, es)
    ensures Run(s, es).pushed == s.pushed + Accepted(s, es)
    decreases |es|
  {
    if es != [] {
      var t, later := Next(s, es[0]), Accepted(Next(s, es[0]), es[1..]);
      LogsAccepted(t, es[1..]);
      if es[0].Store? && t.writing && !s.writing {
        assert Accepted(s, es) == [es[0].req] + later;
        assert s.pushed + ([es[0].req] + later) == t.pushed + later;
      }
    }
  }

  /** After any interleaving of pushes with the consumer: the requests that were accepted have come out, once
      and in order, up to the at most 128 still in the ring; and if some are still there, the consumer is
      draining, or will be woken, or a pusher is about to see to it. */
  lemma NoLostWakeup(es: seq<Event>)
    requires Legal(START, es)
    ensures var s := Run(START, es);
      && Accepted(START, es) == s.delivered + s.contents
      && |s.contents| <= CAPACITY
      && (s.contents != [] ==>
           s.consumer == Draining || s.writing || (s.counter > 0 && (s.edge || s.consumer == Woken)))
  {
    RunKeeps(START, es);
    LogsAccepted(START, es);
  }

  predicate Internal(e: Event) {
    !e.Store?
  }

  /** Steps the two threads can take, at most, without a further push. */
  function Rank(s: State): nat {
    |s.contents| + (match s.consumer case Idle => 0 case Draining => 1 case Woken => 2)
    + (if s.edge then 4 else 0) + (if s.writing then 5 else 0)
  }

  lemma InternalStepLowersRank(s: State, e: Event)
    requires Enabled(s, e) && Internal(e)
    ensures Rank(Next(s, e)) < Rank(s)
  {
  }

  /** Without further pushes, the threads stop after at most Rank(s) steps. */
  lemma {:induction false} InternalRunsTerminate(s: State, es: seq<Event>)
    requires Legal(s, es) && forall e <- es :: Internal(e)
    ensures |es| + Rank(Run(s, es)) <= Rank(s)
    decreases |es|
  {
    if es != [] {
      InternalStepLowersRank(s, es[0]);
      InternalRunsTerminate(Next(s, es[0]), es[1..]);
    }
  }

  /** As long as a request is in the ring, one of the threads has a step to take. */
  lemma Progress(s: State) returns (e: Event)
    requires Inv(s) && s.contents != []
    ensures Internal(e) && Enabled(s, e)
  {
    e := if s.writing then Notify
         else if s.consumer == Draining then Pop
         else if s.consumer == Woken then Read
         else Wake;
  }

  /** The threads can only wait for the next push. */
  ghost predicate Quiet(s: State) {
    forall e | Enabled(s, e) :: !Internal(e)
  }

  lemma QuietIsEmpty(s: State)
    requires Inv(s) && Quiet(s)
    ensures s.contents == []
  {
    if s.contents != [] {
      var e := Progress(s);
    }
  }

  /** If the threads can only wait, every accepted request has been delivered. */
  lemma QuietMeansDelivered(es: seq<Event>)
    requires Legal(START, es) && Quiet(Run(START, es))
    ensures Run(START, es).delivered == Accepted(START, es)
  {
    RunKeeps(START, es);
    var s := Run(START, es);
    QuietIsEmpty(s);
    LogsAccepted(START, es);
    assert s.delivered == s.delivered + s.contents == s.pushed == [] + Accepted(START, es);
  }

  // ---- The code takes these steps ----

  ghost predicate Represents(q: RequestQueue, s: State)
    reads q, q.data
  {
    q.Valid() && q.Contents() == s.contents && q.counter == s.counter && !s.writing
  }

  /** queue_push is Store, and if there was room, Notify. */
  method PushRequest(q: RequestQueue, req: PageRequest, ghost s: State) returns (result: int)
    requires Represents(q, s)
    modifies q, q.data
    ensures var stored := Next(s, Store(req));
      Represents(q, if stored.writing then Next(stored, Notify) else stored)
    ensures result == 0 <==> Next(s, Store(req)).writing
  {
    result := q.Push(req);
  }

  /** The run of one eventfd event that finds n requests. */
  function Drain(n: nat): seq<Event> {
    if n == 0 then [Finish] else [Pop] + Drain(n - 1)
  }

  lemma {:induction false} DrainRuns(s: State)
    requires s.consumer == Draining && !s.writing
    ensures Legal(s, Drain(|s.contents|))
    ensures Run(s, Drain(|s.contents|)) ==
            s.(delivered := s.delivered + s.contents, contents := [], consumer := Idle)
    decreases |s.contents|
  {
    var es := Drain(|s.contents|);
    if s.contents == [] {
      assert es == [Finish];
      assert Run(s, es) == Run(Next(s, Finish), []);
    } else {
      var t := Next(s, Pop);
      assert es[0] == Pop && es[1..] == Drain(|t.contents|);
      DrainRuns(t);
      assert s.delivered + s.contents == t.delivered + t.contents;
    }
  }

  /** One event of the eventfd: read the counter and, if it was positive, pop until the queue is empty. */
  method OnQueueEvent(q: RequestQueue, ghost s: State) returns (handled: seq<PageRequest>, ghost t: State)
    requires Represents(q, s) && s.consumer == Woken
    modifies q
    ensures s.counter == 0 ==> t == Next(s, Read) && handled == []
    ensures s.counter > 0 ==>
              && handled == s.contents
              && Legal(s, [Read] + Drain(|s.contents|)) && t == Run(s, [Read] + Drain(|s.contents|))
    ensures Represents(q, t) && t.delivered == s.delivered + handled
  {
    handled := [];
    var count := q.ReadCounter();
    t := Next(s, Read);
    if count > 0 {
      var result, req := q.Pop();
      while result == 0
        invariant q.Valid() && q.counter == 0
        invariant result == 0 ==> s.contents == handled + [req] + q.Contents()
        invariant result != 0 ==> s.contents == handled && q.Contents() == []
        decreases |q.Contents()|, result == 0
      {
        handled := handled + [req];
        result, req := q.Pop();
      }
      DrainRuns(t);
      ghost var es := [Read] + Drain(|s.contents|);
      assert es[0] == Read && es[1..] == Drain(|s.contents|);
      t := Run(s, es);
    }
  }
}
