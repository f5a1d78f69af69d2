/** The home node's faults on its own page, from the fault handler to the popped request: what becomes of the
    page when more than one fault arrives in between, or the queue is full. */
module HomeFaults {
  import opened Wire
  import opened Bitmap
  import opened Directory
  import opened PageStatus
  import opened HomeSpec
  import opened HomeRuns
  import opened HomeProofs
  import opened HomeTheorems
  import opened HomeSafety
  import opened FaultQueue
  import FaultRuns

  /** The network thread has popped a request for the page, whose status is st. */
  function Popped(s: Sys, st: Status, isWrite: bool): Sys
    requires Shape(s)
  {
    Settled(AfterReply(s.(txn := Serving(s.home.me, isWrite)),
                       LocalRequest(s.home.(status := st), isWrite, s.index, HomeFds(s.home.me))))
  }

  /** The state after the first request for the page has been popped, or with none to pop. */
  function AfterFaults(s: Sys, st: Status, requests: seq<PageRequest>): Sys
    requires Shape(s)
  {
    if requests == [] then s.(home := s.home.(status := st)) else Popped(s, st, requests[0].isWrite)
  }

  /** The home node shares the page and is not its owner. */
  ghost predicate HomeShares(s: Sys) {
    Inv(s) && s.txn == Idle && s.home.status == VALID && !Owns(s, s.home.me)
  }

  function WithoutCopy(s: Sys): Sys {
    s.(home := s.home.(status := EMPTY))
  }

  lemma SharesAsSharer(s: Sys)
    requires HomeShares(s)
    ensures s.home.dir.state == SHARED && s.home.me in s.home.dir.sharers && s.home.dir.owner == 0 && s.home.page == s.latest
    ensures Forgotten(WithoutCopy(s))
  {
    assert CopyOk(s, s.home.me);
    var t := WithoutCopy(s);
    forall m: nat | IsNode(m)
      ensures Silent(t, m) && (m != t.home.me ==> CopyOk(t, m))
    {
      assert Silent(s, m) && CopyOk(s, m);
    }
  }

  /** A page that counts as absent is served as after a fault on an absent page. */
  lemma AbsentPopped(s: Sys, st: Status, isWrite: bool)
    requires Shape(s) && (st == PENDING || st == EMPTY) && s.home.dir.owner == 0
    ensures Popped(s, st, isWrite) == FaultStep(WithoutCopy(s), s.home.me, isWrite)
  {
  }

  /** The zeros replace the last value, or another node shares the page and is not told. */
  lemma AbsentWriteGoesStale(s: Sys, st: Status)
    requires HomeShares(s) && (st == PENDING || st == EMPTY)
    ensures Shape(Popped(s, st, true))
    ensures CanGoStale(Popped(s, st, true)) <==> s.latest != ZeroPage() || s.home.dir.sharers != {s.home.me}
  {
    var me, t := s.home.me, WithoutCopy(s);
    SharesAsSharer(s);
    AbsentPopped(s, st, true);
    RetryMapsZeros(t);
    var u := FaultStep(t, me, true);
    if s.latest != ZeroPage() {
      StaleNow(u);
    } else if s.home.dir.sharers != {me} {
      var m :| m in s.home.dir.sharers && m != me;
      assert CopyOk(s, m);
      SharerGoesStale(t, m);
    } else {
      AloneIsServed(s);
      SafeIffNeverStale(s, me, true);
    }
  }

  /** With zeros as the last value and nobody else sharing, mapping zeros does no harm. */
  lemma AloneIsServed(s: Sys)
    requires HomeShares(s) && s.latest == ZeroPage() && s.home.dir.sharers == {s.home.me}
    ensures FaultStep(WithoutCopy(s), s.home.me, true) == FaultStep(s, s.home.me, true)
  {
    SharesAsSharer(s);
    assert Connected(InvalidateSet(s.home.dir, s.home.me) - {s.home.me}, HomeFds(s.home.me)) == {};
  }

  lemma AbsentReadGoesStale(s: Sys, st: Status)
    requires HomeShares(s) && (st == PENDING || st == EMPTY)
    ensures Shape(Popped(s, st, false))
    ensures CanGoStale(Popped(s, st, false)) <==> s.latest != ZeroPage()
  {
    var me, t := s.home.me, WithoutCopy(s);
    SharesAsSharer(s);
    AbsentPopped(s, st, false);
    var u := FaultStep(t, me, false);
    assert u.home.status == VALID && u.home.page == ZeroPage() && u.latest == s.latest && u.txn == Idle;
    if s.latest != ZeroPage() {
      StaleNow(u);
    } else {
      assert ToShared(s.home.dir, me) == s.home.dir;
      assert u == s;
      NeverStale(s);
    }
  }

  /** The home node has a page that it shares and does not own, and any faults arrive, on this page and on
      others, before the first request for the page is popped. When that request has been served, some further
      run of safe steps leaves a stale copy exactly when one of the write faults on the page met a full queue
      or was not the last fault on it, and it matters: no request got through, or the last value was not zeros,
      or the request is a write and another node shares the page. */
  lemma FaultsBeforePopGoStale(s: Sys, node: FaultRuns.Node, es: seq<FaultRuns.Event>)
    requires HomeShares(s) && s.index < |node.status| && node.status[s.index] == VALID
    requires FaultRuns.ForPage(node.queue, s.index) == []
    requires FaultRuns.Legal(node, es) && FaultRuns.Unserved(node, es, s.index)
    ensures var after := FaultRuns.Run(node, es);
      && s.index < |after.status|
      && var requests := FaultRuns.ForPage(after.queue, s.index);
         var t := AfterFaults(s, after.status[s.index], requests);
         && Shape(t)
         && (CanGoStale(t) <==>
              && !FaultRuns.WritesFindRoom(node, es, s.index)
              && (requests == [] || s.latest != ZeroPage()
                  || (requests[0].isWrite && s.home.dir.sharers != {s.home.me})))
  {
    FaultRuns.FaultsBeforePop(node, es, s.index);
    FaultRuns.CopyKeptIffWritesFindRoom(node, es, s.index);
    var after := FaultRuns.Run(node, es);
    var st, requests := after.status[s.index], FaultRuns.ForPage(after.queue, s.index);
    if Resident(st) {
      PresentIsServed(s, st, requests);
    } else if requests == [] {
      NotServed(s);
    } else if requests[0].isWrite {
      AbsentWriteGoesStale(s, st);
    } else {
      AbsentReadGoesStale(s, st);
    }
  }

  lemma PresentIsServed(s: Sys, st: Status, requests: seq<PageRequest>)
    requires HomeShares(s)
    requires (st == VALID && requests == []) || (st == WRITE_PENDING && requests == [PageRequest(s.index, true)])
    ensures Shape(AfterFaults(s, st, requests)) && !CanGoStale(AfterFaults(s, st, requests))
  {
    if st == VALID {
      assert AfterFaults(s, st, requests) == s;
      NeverStale(s);
    } else {
      assert AfterFaults(s, st, requests) == FaultStep(s, s.home.me, true);
      SharesAsSharer(s);
      SafeIffNeverStale(s, s.home.me, true);
    }
  }

  /** Without a request, the next fault on the page finds it absent. */
  lemma NotServed(s: Sys)
    requires HomeShares(s)
    ensures Shape(WithoutCopy(s)) && CanGoStale(WithoutCopy(s))
  {
    SharesAsSharer(s);
    ForgottenGoesStale(WithoutCopy(s));
  }

  /** A worker's read of a page that the home node shares, step by step. */
  lemma ReaderJoins(s: Sys, n: nat) returns (t: Sys)
    requires HomeShares(s) && IsNode(n) && n !in s.home.dir.sharers
    ensures var steps := [Fault(n, false), HomeReceives(n), NodeReceives(n)];
      Runs(s, steps) && SafeRun(s, steps) && After(s, steps) == t
    ensures HomeShares(t) && t.index == s.index && t.home == s.home.(dir := ToShared(s.home.dir, n))
  {
    SharesAsSharer(s);
    assert CopyOk(s, n);
    RemoteFaultKeeps(s, n, false);
    var a := FaultStep(s, n, false);
    HomeSharesOut(a, n);
    var b := HomeStep(a, n);
    t := NodeStep(b, n);
    ReaderGranted(b, n);
    ThreeSteps(s, Fault(n, false), HomeReceives(n), NodeReceives(n));
  }

  lemma HomeSharesOut(a: Sys, n: nat)
    requires Coherent(a) && Backed(a) && a.txn == Serving(n, false) && Requesting(a, n, false)
    requires a.home.status == VALID && a.home.dir.state == SHARED
    ensures var b := HomeStep(a, n);
      && Coherent(b) && Backed(b) && Granting(b, n, false) && b.txn == a.txn
      && b.home == a.home.(dir := ToShared(a.home.dir, n)) && b.index == a.index
  {
    ServeFromHome(a, n, false);
  }

  lemma ReaderGranted(b: Sys, n: nat)
    requires Coherent(b) && Backed(b) && b.txn == Serving(n, false) && Granting(b, n, false)
    requires b.home.status == VALID && b.home.dir.state == SHARED
    ensures Enabled(b, NodeReceives(n)) && HomeShares(NodeStep(b, n)) && NodeStep(b, n).home == b.home
    ensures NodeStep(b, n).index == b.index
  {
    assert b.toNode[n] != [];
    GrantArrives(b, n, false);
  }

  /** It happens, with room in the queue: the home node, 2, reads the page, node 1 reads it, and two threads of
      the home node write to it before the first request is popped. */
  lemma SecondFaultHappens(index: nat, node: FaultRuns.Node)
    requires index < |node.status| && node.status[index] == VALID && node.queue == []
    ensures var start, steps := Init(index, 2), [Fault(2, false)] + [Fault(1, false), HomeReceives(1), NodeReceives(1)];
      var faults := [FaultRuns.Fault(index, true), FaultRuns.Fault(index, true)];
      && Runs(start, steps) && SafeRun(start, steps)
      && FaultRuns.Legal(node, faults)
      && var s, after := After(start, steps), FaultRuns.Run(node, faults);
         && HomeShares(s) && index < |after.status| && |after.queue| == 2
         && var t := AfterFaults(s, after.status[index], FaultRuns.ForPage(after.queue, index));
            Shape(t) && CanGoStale(t)
  {
    var s := TwoSharers(index);
    FaultRuns.SecondFaultForgetsCopy(node, index);
    assert 1 in s.home.dir.sharers;
    AbsentWriteGoesStale(s, PENDING);
  }

  lemma TwoSharers(index: nat) returns (s: Sys)
    ensures var start, steps := Init(index, 2), [Fault(2, false)] + [Fault(1, false), HomeReceives(1), NodeReceives(1)];
      Runs(start, steps) && SafeRun(start, steps) && After(start, steps) == s
    ensures HomeShares(s) && s.index == index && s.home.me == 2 && s.home.dir.sharers == {1, 2}
  {
    var start := Init(index, 2);
    var a := HomeReadsFirst(start);
    s := ReaderJoins(a, 1);
    RunBefore(start, Fault(2, false), [Fault(1, false), HomeReceives(1), NodeReceives(1)]);
  }

  lemma HomeReadsFirst(start: Sys) returns (a: Sys)
    requires IsNode(start.home.me) && start == Init(start.index, start.home.me)
    ensures var fault := Fault(start.home.me, false);
      Enabled(start, fault) && SafeStep(start, fault) && a == Next(start, fault)
    ensures HomeShares(a) && a.index == start.index && a.home.me == start.home.me && a.home.dir == Dir(SHARED, 0, {start.home.me})
  {
    var fault := Fault(start.home.me, false);
    InitHolds(start.index, start.home.me);
    assert CopyOk(start, start.home.me);
    a := Next(start, fault);
    StepKeepsIffSafe(start, fault);
  }
}
