/** From the fault of the home node to the granted page: the fault handler queues the fault, the eventfd wakes the
    network thread, it pops the request, and the packets of the transaction are delivered. All of these steps
    interleave freely with those for the requests of other pages. */
module HomeService {
  import opened Wire
  import opened Bitmap
  import opened Directory
  import opened PageStatus
  import opened HomeSpec
  import opened HomeRuns
  import opened HomeProofs
  import opened HomeTheorems
  import opened HomeTransactions
  import opened HomeFaults
  import opened FaultQueue
  import FaultRuns
  import Wakeup

  /** The page's system, the queue with its wakeup, and whether the fault's request is still in the queue. */
  datatype Whole = Whole(sys: Sys, wake: Wakeup.State, queued: bool)

  datatype Act =
    | Queue(event: Wakeup.Event)  // a step of the fault handler or of the network thread at the queue
    | Deliver(step: Step)         // a packet arrives

  predicate CanDo(c: Whole, a: Act) {
    match a
    case Queue(e) => Wakeup.Enabled(c.wake, e) && (e.Store? ==> e.req.pageIndex != c.sys.index) && Shape(c.sys)
    case Deliver(st) => Delivery(st) && Enabled(c.sys, st)
  }

  predicate PopsPage(c: Whole, e: Wakeup.Event)
    requires Wakeup.Enabled(c.wake, e)
  {
    e.Pop? && c.wake.contents[0].pageIndex == c.sys.index
  }

  function Do(c: Whole, a: Act): Whole
    requires CanDo(c, a)
  {
    match a
    case Deliver(st) => c.(sys := Next(c.sys, st))
    case Queue(e) =>
      var wake := Wakeup.Next(c.wake, e);
      if PopsPage(c, e) then Whole(Popped(c.sys, c.sys.home.status, c.wake.contents[0].isWrite), wake, false)
      else c.(wake := wake)
  }

  predicate Possible(c: Whole, acts: seq<Act>)
    decreases |acts|
  {
    acts == [] || (CanDo(c, acts[0]) && Possible(Do(c, acts[0]), acts[1..]))
  }

  function Outcome(c: Whole, acts: seq<Act>): Whole
    requires Possible(c, acts)
    decreases |acts|
  {
    if acts == [] then c else Outcome(Do(c, acts[0]), acts[1..])
  }

  /** The home node has faulted and the fault handler has stored the request. */
  function Faulting(s: Sys, w: Wakeup.State, isWrite: bool): Whole
    requires !w.writing
  {
    Whole(s.(home := s.home.(status := Faulted(s.home.status, isWrite))),
          Wakeup.Next(w, Wakeup.Store(PageRequest(s.index, isWrite))), true)
  }

  /** The fault handler does just that, unless the queue is full. */
  lemma HandlerStarts(s: Sys, w: Wakeup.State, node: FaultRuns.Node, isWrite: bool)
    requires !w.writing && w.contents == node.queue && |node.queue| < CAPACITY
    requires s.index < |node.status| && node.status[s.index] == s.home.status && !Spurious(s.home.status, isWrite)
    ensures var c, after := Faulting(s, w, isWrite), FaultRuns.OnFault(node, s.index, isWrite);
      c.wake.contents == after.queue && c.sys.home.status == after.status[s.index] && c.wake.writing
  {
  }

  /** A fault that can be served, with room in the queue and no earlier request for the page in it. */
  ghost predicate MayStart(s: Sys, w: Wakeup.State, isWrite: bool) {
    && Inv(s) && Enabled(s, Fault(s.home.me, isWrite)) && Safe(s, s.home.me, isWrite)
    && Wakeup.Inv(w) && !w.writing && |w.contents| < CAPACITY && FaultRuns.ForPage(w.contents, s.index) == []
  }

  /** Either the request is queued and the page as the fault left it, or its transaction is being served, or it
      is over. */
  ghost predicate OnItsWay(c: Whole, s: Sys, isWrite: bool) {
    && Wakeup.Inv(c.wake)
    && c.sys.index == s.index
    && (c.queued ==>
          && c.sys == s.(home := s.home.(status := Faulted(s.home.status, isWrite)))
          && FaultRuns.ForPage(c.wake.contents, s.index) == [PageRequest(s.index, isWrite)])
    && (!c.queued ==>
          && Inv(c.sys) && c.sys.latest == s.latest && c.sys.home.me == s.home.me
          && FaultRuns.ForPage(c.wake.contents, s.index) == []
          && (c.sys.txn == Serving(s.home.me, isWrite)
              || (c.sys.txn == Idle && Served(c.sys, s.home.me, isWrite, s.latest))))
  }

  lemma StartsOnItsWay(s: Sys, w: Wakeup.State, isWrite: bool)
    requires MayStart(s, w, isWrite)
    ensures OnItsWay(Faulting(s, w, isWrite), s, isWrite)
  {
    Wakeup.StepKeeps(w, Wakeup.Store(PageRequest(s.index, isWrite)));
    FaultRuns.ForPageAppend(w.contents, PageRequest(s.index, isWrite), s.index);
  }

  // ---- One step ----

  function Left(c: Whole): nat
    requires Shape(c.sys) && (c.sys.txn.Serving? ==> c.sys.txn.node < WIDTH)
  {
    Wakeup.Rank(c.wake) + if c.queued then 2 * WIDTH + 6 else Rank(c.sys)
  }

  /** The queue's own steps, apart from popping the page's request. */
  lemma OtherQueueStep(c: Whole, e: Wakeup.Event, s: Sys, isWrite: bool)
    requires OnItsWay(c, s, isWrite) && CanDo(c, Queue(e)) && !PopsPage(c, e)
    ensures OnItsWay(Do(c, Queue(e)), s, isWrite)
  {
    Wakeup.StepKeeps(c.wake, e);
    if e.Store? {
      FaultRuns.ForPageAppend(c.wake.contents, e.req, s.index);
    }
  }

  /** The head of the queue is the one request for the page. */
  lemma HeadIsTheRequest(c: Whole, s: Sys, isWrite: bool)
    requires OnItsWay(c, s, isWrite) && c.wake.contents != [] && c.wake.contents[0].pageIndex == s.index
    ensures c.queued && c.wake.contents[0] == PageRequest(s.index, isWrite)
    ensures FaultRuns.ForPage(c.wake.contents[1..], s.index) == []
  {
    var rs := c.wake.contents;
    assert FaultRuns.ForPage(rs, s.index) == [rs[0]] + FaultRuns.ForPage(rs[1..], s.index);
    assert FaultRuns.ForPage(rs, s.index)[0] == rs[0];
    assert |FaultRuns.ForPage(rs, s.index)| == 1 + |FaultRuns.ForPage(rs[1..], s.index)|;
  }

  lemma FaultStarts(s: Sys, isWrite: bool)
    requires Inv(s) && Enabled(s, Fault(s.home.me, isWrite)) && Safe(s, s.home.me, isWrite)
    ensures var t := Next(s, Fault(s.home.me, isWrite));
      && Inv(t) && t.latest == s.latest && t.home.me == s.home.me && t.index == s.index
      && (t.txn == Serving(s.home.me, isWrite) || (t.txn == Idle && Served(t, s.home.me, isWrite, s.latest)))
  {
    StepKeepsIffSafe(s, Fault(s.home.me, isWrite));
    FaultSendsNoPage(s, s.home.me, isWrite);
    if Next(s, Fault(s.home.me, isWrite)).txn == Idle {
      FaultServed(s, s.home.me, isWrite);
    }
  }

  /** The request is popped: the transaction starts. */
  lemma RequestPopped(c: Whole, e: Wakeup.Event, s: Sys, w: Wakeup.State, isWrite: bool)
    requires MayStart(s, w, isWrite) && OnItsWay(c, s, isWrite) && CanDo(c, Queue(e)) && PopsPage(c, e)
    ensures c.queued
    ensures Do(c, Queue(e)).sys == Next(s, Fault(s.home.me, isWrite)) && !Do(c, Queue(e)).queued
    ensures OnItsWay(Do(c, Queue(e)), s, isWrite)
  {
    Wakeup.StepKeeps(c.wake, e);
    HeadIsTheRequest(c, s, isWrite);
    PoppedIsFault(s, isWrite);
    FaultStarts(s, isWrite);
  }

  lemma PoppedIsFault(s: Sys, isWrite: bool)
    requires Shape(s)
    ensures var t := s.(home := s.home.(status := Faulted(s.home.status, isWrite)));
      Popped(t, t.home.status, isWrite) == FaultStep(s, s.home.me, isWrite)
  {
  }

  /** While the request is queued, nothing is in flight; afterwards a delivery advances the transaction. */
  lemma PacketArrives(c: Whole, st: Step, s: Sys, w: Wakeup.State, isWrite: bool)
    requires MayStart(s, w, isWrite) && OnItsWay(c, s, isWrite) && CanDo(c, Deliver(st))
    ensures !c.queued && c.sys.txn.Serving? && c.sys.txn.node < WIDTH
    ensures Shape(Next(c.sys, st)) && (Next(c.sys, st).txn.Serving? ==> Next(c.sys, st).txn.node < WIDTH)
    ensures OnItsWay(Do(c, Deliver(st)), s, isWrite) && Rank(Next(c.sys, st)) < Rank(c.sys)
  {
    if c.queued {
      NothingInFlight(c, st, s, w, isWrite);
    } else if c.sys.txn == Idle {
      IdleIsQuiet(c.sys, st);
    } else {
      PacketAdvances(c.sys, st);
    }
  }

  lemma NothingInFlight(c: Whole, st: Step, s: Sys, w: Wakeup.State, isWrite: bool)
    requires MayStart(s, w, isWrite) && OnItsWay(c, s, isWrite) && c.queued
    ensures !CanDo(c, Deliver(st))
  {
    if IsNode(st.node) {
      assert Silent(s, st.node);
    }
  }

  lemma PacketAdvances(u: Sys, st: Step)
    requires Inv(u) && u.txn.Serving? && Enabled(u, st) && Delivery(st)
    ensures var t := Next(u, st);
      && u.txn.node < WIDTH && Inv(t) && t.index == u.index && t.latest == u.latest && t.home.me == u.home.me
      && (t.txn == u.txn || (t.txn == Idle && Served(t, u.txn.node, u.txn.isWrite, u.latest)))
      && Rank(t) < Rank(u)
  {
    DeliveryAdvances(u, st);
    SameIndex(u, st);
    if Next(u, st).txn == Idle {
      DeliveryServed(u, st);
    }
  }

  lemma SameIndex(u: Sys, st: Step)
    requires Enabled(u, st) && Delivery(st)
    ensures Next(u, st).index == u.index
  {
  }

  /** Every step keeps the request on its way, and every step but a further push brings it closer. */
  lemma ActKeeps(c: Whole, a: Act, s: Sys, w: Wakeup.State, isWrite: bool)
    requires MayStart(s, w, isWrite) && OnItsWay(c, s, isWrite) && CanDo(c, a)
    ensures OnItsWay(Do(c, a), s, isWrite)
    ensures !(a.Queue? && a.event.Store?) ==> Left(Do(c, a)) < Left(c)
  {
    match a
    case Deliver(st) => PacketArrives(c, st, s, w, isWrite);
    case Queue(e) =>
      if Wakeup.Internal(e) {
        Wakeup.InternalStepLowersRank(c.wake, e);
      }
      if PopsPage(c, e) {
        RequestPopped(c, e, s, w, isWrite);
        FaultRank(s, isWrite);
      } else {
        OtherQueueStep(c, e, s, isWrite);
      }
  }

  lemma FaultRank(s: Sys, isWrite: bool)
    requires Inv(s) && Enabled(s, Fault(s.home.me, isWrite)) && Safe(s, s.home.me, isWrite)
    ensures var t := Next(s, Fault(s.home.me, isWrite));
      Shape(t) && (t.txn.Serving? ==> t.txn.node < WIDTH) && Rank(t) <= 2 * WIDTH + 5
  {
    StepKeepsIffSafe(s, Fault(s.home.me, isWrite));
    var t := Next(s, Fault(s.home.me, isWrite));
    if t.txn.Serving? {
      RankOfPhase(t, t.txn.node, t.txn.isWrite);
    }
  }

  // ---- Runs ----

  /** Over every run, also with further pushes for other pages: the request stays on its way. */
  lemma {:induction false} RunOnItsWay(c: Whole, acts: seq<Act>, s: Sys, w: Wakeup.State, isWrite: bool)
    requires MayStart(s, w, isWrite) && OnItsWay(c, s, isWrite) && Possible(c, acts)
    ensures OnItsWay(Outcome(c, acts), s, isWrite)
    ensures (forall a <- acts :: !(a.Queue? && a.event.Store?)) ==> |acts| + Left(Outcome(c, acts)) <= Left(c)
    decreases |acts|
  {
    if acts != [] {
      ActKeeps(c, acts[0], s, w, isWrite);
      RunOnItsWay(Do(c, acts[0]), acts[1..], s, w, isWrite);
    }
  }

  /** As long as the fault has not been served, the queue or the network has a step to take. */
  lemma SomethingToDo(c: Whole, s: Sys, w: Wakeup.State, isWrite: bool) returns (a: Act)
    requires MayStart(s, w, isWrite) && OnItsWay(c, s, isWrite) && (c.queued || c.sys.txn != Idle)
    ensures CanDo(c, a) && !(a.Queue? && a.event.Store?)
  {
    if c.queued {
      var e := Wakeup.Progress(c.wake);
      a := Queue(e);
    } else {
      var st := TransactionProgress(c.sys);
      a := Deliver(st);
    }
  }

  /** Every fault of the home node that gets into the queue, and is safe, is served: however the pushers, the
      network thread and the packets interleave, after at most 273 steps without a further push nothing is left
      to do, and then the home node has the page with the last value stored, as owner if it wrote. */
  lemma EveryQueuedFaultIsServed(s: Sys, w: Wakeup.State, isWrite: bool, acts: seq<Act>)
    requires MayStart(s, w, isWrite) && Possible(Faulting(s, w, isWrite), acts)
    ensures var c := Outcome(Faulting(s, w, isWrite), acts);
      (forall a :: CanDo(c, a) ==> a.Queue? && a.event.Store?) ==>
        c.sys.txn == Idle && Served(c.sys, s.home.me, isWrite, s.latest)
    ensures (forall a <- acts :: !(a.Queue? && a.event.Store?)) ==> |acts| <= 273
  {
    StartsOnItsWay(s, w, isWrite);
    LeftAtStart(s, w, isWrite);
    RunOnItsWay(Faulting(s, w, isWrite), acts, s, w, isWrite);
    var c := Outcome(Faulting(s, w, isWrite), acts);
    if forall a :: CanDo(c, a) ==> a.Queue? && a.event.Store? {
      NothingLeftMeansServed(c, s, w, isWrite);
    }
  }

  lemma LeftAtStart(s: Sys, w: Wakeup.State, isWrite: bool)
    requires MayStart(s, w, isWrite)
    ensures Left(Faulting(s, w, isWrite)) <= 273
  {
  }

  lemma NothingLeftMeansServed(c: Whole, s: Sys, w: Wakeup.State, isWrite: bool)
    requires MayStart(s, w, isWrite) && OnItsWay(c, s, isWrite)
    requires forall a :: CanDo(c, a) ==> a.Queue? && a.event.Store?
    ensures c.sys.txn == Idle && Served(c.sys, s.home.me, isWrite, s.latest)
  {
    if c.queued || c.sys.txn != Idle {
      var a := SomethingToDo(c, s, w, isWrite);
    }
  }
}
