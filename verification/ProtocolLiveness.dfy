/** When requests get their grants: exactly which step strands the deferred queue, and a measure that
    drives every request of a run without stranding to its grant. */
module ProtocolLiveness {
  import opened Wire
  import opened Bitmap
  import opened Directory
  import opened SequencerSpec
  import opened Channels
  import opened PageStatus
  import opened Protocol
  import opened ProtocolInvariant
  import opened ProtocolSafety

  // ---- Stranding ----

  /** Requests are waiting in the queue and no transaction is active that could start them. */
  predicate Stranded(s: Sys) {
    !s.rec.active && s.rec.deferred != []
  }

  /** The step is the last acknowledgement of a READ, and the coordinator starts another READ from the
      queue while a third request is waiting behind it. */
  predicate ReadAfterRead(s: Sys, st: Step)
    requires Enabled(s, st)
  {
    && st.CoordinatorReceives?
    && s.up[st.node][0] == INVALIDATE_ACK
    && s.rec.expectedAcks == 1
    && s.dir.state == SHARED
    && |s.rec.deferred| >= 2
    && s.rec.deferred[0].kind == READ
  }

  /** Nothing is in flight on any connection. */
  ghost predicate Quiescent(s: Sys)
    requires Shape(s)
  {
    forall n: nat :: IsNode(n) ==> s.up[n] == [] && s.down[n] == []
  }

  /** What executing a request from the queue leads to, right after a transaction has completed. */
  lemma ResumedStaysActive(s: Sys, q: Request)
    requires InvWith(s, q.node) && IsNode(q.node) && !s.rec.active
    requires q == RequestOf(s.page, q.node, s.workers[q.node].want)
    requires s.dir.state == MODIFIED ==> s.dir.owner != q.node
    requires s.dir.state != INVALID && exists a <- Holders(s.dir) :: a != q.node
    ensures Execute(s.rec, s.dir, q, NodeFds()).rec.active <==> !(q.kind == READ && s.dir.state == SHARED)
    ensures Execute(s.rec, s.dir, q, NodeFds()).rec.deferred == s.rec.deferred
  {
    assert NodeOk(s, q.node, q.node);
    var a :| a in Holders(s.dir) && a != q.node;
    assert a in InvalidateSet(s.dir, q.node);
  }

  /** A step strands the queue exactly when it is a READ started right after a READ, with more waiting. */
  lemma StrandsIffReadAfterRead(s: Sys, st: Step)
    requires Inv(s) && Enabled(s, st) && !Stranded(s)
    ensures Stranded(Next(s, st)) <==> ReadAfterRead(s, st)
  {
    if st.CoordinatorReceives? {
      var n := st.node;
      if s.up[n][0] == INVALIDATE_ACK {
        AckOwing(s, n);
        if s.rec.expectedAcks == 1 {
          var granted := LastAckKeeps(s, n);
          if s.rec.deferred != [] {
            var q, a := s.rec.deferred[0], s.rec.activeNode;
            var popped := WithQueue(granted, s.rec.deferred[1..]);
            assert NodeOk(s, a, 0) && NodeOk(s, q.node, 0);
            assert Queued(s, q.node);
            assert a in Holders(s.dir) && a != q.node;
            ResumedStaysActive(popped, q);
          }
        }
      }
    }
  }

  /** Every state of the run has either an empty queue or an active transaction. */
  predicate NeverStranded(s: Sys, steps: seq<Step>)
    requires Runs(s, steps)
    decreases |steps|
  {
    !Stranded(s) && (steps == [] || NeverStranded(Next(s, steps[0]), steps[1..]))
  }

  predicate NoReadAfterRead(s: Sys, steps: seq<Step>)
    requires Runs(s, steps)
    decreases |steps|
  {
    steps == [] || (!ReadAfterRead(s, steps[0]) && NoReadAfterRead(Next(s, steps[0]), steps[1..]))
  }

  /** Over every run, of reads and writes alike: the queue is never stranded exactly when no READ is started
      right after a READ with more waiting. */
  lemma {:induction false} NeverStrandedIffNoReadAfterRead(s: Sys, steps: seq<Step>)
    requires Inv(s) && !Stranded(s) && Runs(s, steps)
    ensures NeverStranded(s, steps) <==> NoReadAfterRead(s, steps)
    ensures NoReadAfterRead(s, steps) ==> Inv(After(s, steps)) && !Stranded(After(s, steps))
    decreases |steps|
  {
    if steps != [] {
      StrandsIffReadAfterRead(s, steps[0]);
      StepKeeps(s, steps[0]);
      var t := Next(s, steps[0]);
      if Stranded(t) {
        assert !NeverStranded(t, steps[1..]);
      } else {
        NeverStrandedIffNoReadAfterRead(t, steps[1..]);
      }
    }
  }

  // ---- Stranding does happen ----

  lemma InitReachable(page: nat)
    ensures Reachable(Init(page))
  {
    assert Runs(Init(page), []) && After(Init(page), []) == Init(page);
  }

  lemma GrantArrives(s: Sys, n: nat) returns (t: Sys)
    requires Reachable(s) && IsNode(n) && s.down[n] == [SEND_PAGE]
    ensures Reachable(t) && t.page == s.page && t.rec == s.rec && t.dir == s.dir && t.up == s.up
    ensures forall m: nat :: IsNode(m) ==> t.down[m] == if m == n then [] else s.down[m]
    ensures forall m: nat :: IsNode(m) && m != n ==> t.workers[m] == s.workers[m]
  {
    t := NodeStep(s, n);
    ReachableStep(s, NodeReceives(n));
  }

  /** What node 1's write of an untouched page leads to. */
  lemma WriteGranted(s: Sys)
    requires Shape(s) && s.page == 0 && s.rec == IDLE && s.dir == INITIAL && s.up[1] == [] && s.workers[1].status == EMPTY
    ensures var a := IssueStep(s, 1, WRITE);
      && a.up[1] == [WRITE]
      && var t := CoordinatorStep(a, 1);
         && t.page == 0 && t.rec == IDLE && t.dir == Dir(MODIFIED, 1, {})
         && t.workers == a.workers && |t.up| == WIDTH && t.up[1] == [] && t.down == s.down[1 := s.down[1] + [SEND_PAGE]]
         && forall m: nat :: m < WIDTH && m != 1 ==> t.up[m] == s.up[m]
  {
    var a := IssueStep(s, 1, WRITE);
    assert a.up[1] == [WRITE];
    DeliverOne(a.down, 1, Grant(0), Code);
    assert CoordinatorStep(a, 1).up[1] == [];
  }

  lemma WriteArrives(s: Sys) returns (t: Sys)
    requires s == Init(0) && Reachable(s)
    ensures Reachable(t) && t.page == 0 && t.rec == IDLE && t.dir == Dir(MODIFIED, 1, {})
    ensures forall m: nat :: IsNode(m) ==> t.up[m] == [] && t.down[m] == if m == 1 then [SEND_PAGE] else []
    ensures forall m: nat :: IsNode(m) && m != 1 ==> t.workers[m] == Worker(EMPTY, false, 0)
  {
    WriteGranted(s);
    var a := IssueStep(s, 1, WRITE);
    ReachableStep(s, Issue(1, WRITE));
    t := CoordinatorStep(a, 1);
    ReachableStep(a, CoordinatorReceives(1));
  }

  /** Node n asks to read, and its request reaches the coordinator. */
  lemma ReadArrives(s: Sys, n: nat) returns (t: Sys)
    requires Reachable(s) && IsNode(n) && s.workers[n] == Worker(EMPTY, false, 0) && s.up[n] == []
    requires s.rec.active || (s.dir.owner != 0 && s.dir.owner != n)
    ensures Reachable(t) && t.page == s.page
    ensures forall m: nat :: IsNode(m) ==> t.up[m] == s.up[m]
    ensures t.workers == s.workers[n := Worker(PENDING, false, READ)]
    ensures s.rec.active ==>
              && t.dir == s.dir && t.down == s.down
              && t.rec == s.rec.(deferred := s.rec.deferred + [RequestOf(s.page, n, READ)])
    ensures !s.rec.active ==>
              && t.dir == ToShared(s.dir, n) && s.dir.owner < WIDTH
              && t.down == s.down[s.dir.owner := s.down[s.dir.owner] + [INVALIDATE]]
              && t.rec == s.rec.(active := true, activeNode := n, expectedAcks := 1)
  {
    var a := IssueStep(s, n, READ);
    ReachableStep(s, Issue(n, READ));
    assert a.up[n] == [READ];
    t := CoordinatorStep(a, n);
    ReachableStep(a, CoordinatorReceives(n));
    assert t.up[n] == [];
    if !s.rec.active {
      DeliverOne(a.down, s.dir.owner, InvalidatePacket(s.page, n), Code);
    }
  }

  /** The owner drops its copy and acknowledges; that completes node 2's read and starts node 3's, which is
      granted at once; both grants arrive, and node 4's request is left in the queue. */
  lemma LastSteps(s: Sys)
    requires Shape(s) && s.page == 0 && s.dir == Dir(SHARED, 0, {1, 2})
    requires s.rec == Record(true, 2, 1, [RequestOf(0, 3, READ), RequestOf(0, 4, READ)])
    requires forall m: nat :: IsNode(m) ==> s.up[m] == [] && s.down[m] == if m == 1 then [INVALIDATE] else []
    ensures var a := NodeStep(s, 1);
      && Enabled(s, NodeReceives(1)) && Shape(a) && Enabled(a, CoordinatorReceives(1))
      && var b := CoordinatorStep(a, 1);
         && Shape(b) && Enabled(b, NodeReceives(2)) && var c := NodeStep(b, 2);
         && Shape(c) && Enabled(c, NodeReceives(3)) && var d := NodeStep(c, 3);
         && Shape(d) && Quiescent(d) && Stranded(d) && d.workers[4] == s.workers[4]
  {
    var a := OwnerDrops(s);
    AckServesTwo(a);
    var b := CoordinatorStep(a, 1);
    assert a.down[2] == [] && a.down[3] == [];
    assert b.down[2] == [SEND_PAGE] && b.down[3] == [SEND_PAGE];
    BothGranted(b);
  }

  lemma OwnerDrops(s: Sys) returns (a: Sys)
    requires Shape(s) && s.down[1] == [INVALIDATE] && s.up[1] == []
    ensures a == NodeStep(s, 1) && Shape(a) && a.page == s.page && a.rec == s.rec && a.dir == s.dir
    ensures a.up[1] == [INVALIDATE_ACK] && a.down[1] == []
    ensures forall m: nat :: m < WIDTH && m != 1 ==>
              a.workers[m] == s.workers[m] && a.up[m] == s.up[m] && a.down[m] == s.down[m]
  {
    a := NodeStep(s, 1);
  }

  lemma BothGranted(b: Sys)
    requires Shape(b) && !b.rec.active && b.rec.deferred != []
    requires forall m: nat :: IsNode(m) ==> b.up[m] == [] && b.down[m] == if m == 2 || m == 3 then [SEND_PAGE] else []
    ensures var c := NodeStep(b, 2);
      && Shape(c) && c.down[3] == [SEND_PAGE] && var d := NodeStep(c, 3);
      && Shape(d) && Quiescent(d) && Stranded(d) && d.workers[4] == b.workers[4]
  {
    var c := NodeStep(b, 2);
    var d := NodeStep(c, 3);
    forall m: nat | IsNode(m)
      ensures d.up[m] == [] && d.down[m] == []
    {
    }
  }

  lemma AckServesTwo(a: Sys)
    requires Shape(a) && a.page == 0 && a.dir == Dir(SHARED, 0, {1, 2}) && a.up[1] == [INVALIDATE_ACK]
    requires a.rec == Record(true, 2, 1, [RequestOf(0, 3, READ), RequestOf(0, 4, READ)])
    ensures var t := CoordinatorStep(a, 1);
      && t.rec == Record(false, 0, 0, [RequestOf(0, 4, READ)]) && t.workers == a.workers
      && |t.up| == WIDTH && t.up[1] == [] && (forall m: nat :: m < WIDTH && m != 1 ==> t.up[m] == a.up[m])
      && t.down == a.down[2 := a.down[2] + [SEND_PAGE]][3 := a.down[3] + [SEND_PAGE]]
  {
    TwoGrants(a.dir, a.down);
    assert TakeUp(a, 1).up[1] == [];
  }

  lemma TwoGrants(d: Dir, down: seq<seq<nat>>)
    requires d == Dir(SHARED, 0, {1, 2}) && |down| == WIDTH
    ensures var o := OnAck(Record(true, 2, 1, [RequestOf(0, 3, READ), RequestOf(0, 4, READ)]), d, 0, NodeFds());
      && o.rec == Record(false, 0, 0, [RequestOf(0, 4, READ)])
      && Deliver(down, o.sent, Code) == down[2 := down[2] + [SEND_PAGE]][3 := down[3] + [SEND_PAGE]]
  {
    var queue := [RequestOf(0, 3, READ), RequestOf(0, 4, READ)];
    assert queue[1..] == [RequestOf(0, 4, READ)];
    DeliverConcat(down, Send(2, Grant(0)), Send(3, Grant(0)), Code);
    DeliverOne(down, 2, Grant(0), Code);
    DeliverOne(down[2 := down[2] + [SEND_PAGE]], 3, Grant(0), Code);
  }

  lemma FirstWrite() returns (s: Sys)
    ensures Reachable(s) && s.page == 0 && s.dir == Dir(MODIFIED, 1, {}) && s.rec == IDLE
    ensures forall m: nat :: IsNode(m) ==> s.up[m] == [] && s.down[m] == []
    ensures forall m: nat :: IsNode(m) && m != 1 ==> s.workers[m] == Worker(EMPTY, false, 0)
  {
    InitReachable(0);
    var a := WriteArrives(Init(0));
    s := GrantArrives(a, 1);
  }

  lemma FirstRead() returns (s: Sys)
    ensures Reachable(s) && s.page == 0 && s.dir == Dir(SHARED, 0, {1, 2}) && s.rec == Record(true, 2, 1, [])
    ensures forall m: nat :: IsNode(m) ==> s.up[m] == [] && s.down[m] == if m == 1 then [INVALIDATE] else []
    ensures s.workers[3] == Worker(EMPTY, false, 0) && s.workers[4] == Worker(EMPTY, false, 0)
  {
    var b := FirstWrite();
    s := ReadArrives(b, 2);
    assert s.down == b.down[1 := b.down[1] + [INVALIDATE]];
    assert s.dir.sharers == {1, 2};
  }

  lemma TwoReadsWait() returns (s: Sys)
    ensures Reachable(s) && s.page == 0 && s.dir == Dir(SHARED, 0, {1, 2})
    ensures s.rec == Record(true, 2, 1, [RequestOf(0, 3, READ), RequestOf(0, 4, READ)])
    ensures forall m: nat :: IsNode(m) ==> s.up[m] == [] && s.down[m] == if m == 1 then [INVALIDATE] else []
    ensures s.workers[4].want == READ
  {
    var a := FirstRead();
    var b := ReadArrives(a, 3);
    assert b.rec.deferred == [RequestOf(0, 3, READ)];
    s := ReadArrives(b, 4);
  }

  /** Node 1 writes, then nodes 2, 3 and 4 read while node 1 is being asked to give the page up: node 4 is
      never served, although nothing is left in flight. */
  lemma StrandingIsReachable() returns (s: Sys)
    ensures Reachable(s) && Quiescent(s) && Stranded(s) && s.workers[4].want == READ
  {
    var w := TwoReadsWait();
    LastSteps(w);
    var a := NodeStep(w, 1);
    ReachableStep(w, NodeReceives(1));
    var b := CoordinatorStep(a, 1);
    ReachableStep(a, CoordinatorReceives(1));
    var c := NodeStep(b, 2);
    ReachableStep(b, NodeReceives(2));
    s := NodeStep(c, 3);
    ReachableStep(c, NodeReceives(3));
  }

  /** No READ is outstanding and none has left the page shared. */
  ghost predicate WritesOnly(s: Sys) {
    && Shape(s)
    && s.dir.state != SHARED
    && !Stranded(s)
    && forall n: nat :: IsNode(n) ==> s.workers[n].want != READ
  }

  lemma StepWritesOnly(s: Sys, st: Step)
    requires Inv(s) && WritesOnly(s) && Enabled(s, st)
    requires st.Issue? ==> st.kind == WRITE
    ensures WritesOnly(Next(s, st))
  {
    StrandsIffReadAfterRead(s, st);
    if st.CoordinatorReceives? {
      var n := st.node;
      assert NodeOk(s, n, 0);
      if s.up[n][0] == INVALIDATE_ACK {
        AckOwing(s, n);
        if s.rec.expectedAcks == 1 {
          var granted := LastAckKeeps(s, n);
        }
      } else {
        TakeRequestKeeps(s, n);
      }
    }
  }

  /** In a run in which nodes only write, no READ follows a READ, and the queue is never stranded. */
  lemma {:induction false} WriteRunsNeverStrand(s: Sys, steps: seq<Step>)
    requires Inv(s) && WritesOnly(s) && Runs(s, steps)
    requires forall st <- steps :: st.Issue? ==> st.kind == WRITE
    ensures WritesOnly(After(s, steps)) && NoReadAfterRead(s, steps)
    ensures After(s, steps).rec.deferred != [] ==> After(s, steps).rec.active
    decreases |steps|
  {
    if steps != [] {
      StepWritesOnly(s, steps[0]);
      StepKeeps(s, steps[0]);
      WriteRunsNeverStrand(Next(s, steps[0]), steps[1..]);
    }
  }

  // ---- Progress ----

  predicate Delivery(st: Step) {
    !st.Issue?
  }

  /** While a request is ungranted and the queue is not stranded, some message is in flight. */
  lemma Progress(s: Sys, n: nat) returns (st: Step)
    requires Inv(s) && !Stranded(s) && IsNode(n) && s.workers[n].want != 0
    ensures Delivery(st) && Enabled(s, st)
  {
    assert NodeOk(s, n, 0);
    if RequestFrom(s, n) {
      return CoordinatorReceives(n);
    }
    if GrantTo(s, n) {
      return NodeReceives(n);
    }
    assert s.rec.active;
    var m :| m in Owing(s);
    if InvalidateTo(s, m) {
      return NodeReceives(m);
    }
    return CoordinatorReceives(m);
  }

  /** Once nothing is in flight, the ungranted requests are exactly the deferred ones, so some request stays
      ungranted if and only if the queue is stranded. */
  lemma QuiescentUngrantedIffStranded(s: Sys)
    requires Inv(s) && Quiescent(s)
    ensures forall n: nat :: IsNode(n) ==> (s.workers[n].want != 0 <==> Queued(s, n))
    ensures (exists n: nat :: IsNode(n) && s.workers[n].want != 0) <==> Stranded(s)
  {
    forall n: nat | n < WIDTH
      ensures n !in Owing(s)
    {
    }
    assert Owing(s) == {};
    forall n: nat | IsNode(n)
      ensures s.workers[n].want != 0 <==> Queued(s, n)
    {
      assert NodeOk(s, n, 0);
    }
    if Stranded(s) {
      var n := s.rec.deferred[0].node;
      assert Queued(s, n);
      assert IsNode(n) && s.workers[n].want != 0;
    }
  }

  // ---- The measure ----

  function Requesting(s: Sys): set<nat>
    requires Shape(s)
  {
    set n: nat | n < WIDTH && RequestFrom(s, n)
  }

  function Invalidating(s: Sys): set<nat>
    requires Shape(s)
  {
    set n: nat | n < WIDTH && InvalidateTo(s, n)
  }

  function Acking(s: Sys): set<nat>
    requires Shape(s)
  {
    set n: nat | n < WIDTH && AckFrom(s, n)
  }

  function Granting(s: Sys): set<nat>
    requires Shape(s)
  {
    set n: nat | n < WIDTH && GrantTo(s, n)
  }

  /** A bound on the number of messages still to be delivered before nothing is left to do. */
  function Rank(s: Sys): nat
    requires Shape(s)
  {
    140 * |Requesting(s)| + 139 * |s.rec.deferred| + 2 * Count(s.rec.active)
    + 2 * |Invalidating(s)| + |Acking(s)| + |Granting(s)|
  }

  lemma OneElement(x: set<nat>, y: set<nat>, n: nat)
    requires forall m: nat :: m != n ==> (m in x <==> m in y)
    ensures |y| + Count(n in x) == |x| + Count(n in y)
  {
    assert x - {n} == y - {n};
    assert |x| == |x - {n}| + Count(n in x);
    assert |y| == |y - {n}| + Count(n in y);
  }

  /** A change on node n's connections changes each count by what n contributes. */
  lemma LocalRank(s: Sys, t: Sys, n: nat)
    requires Shape(s) && Shape(t) && n < WIDTH
    requires forall m: nat | m < WIDTH && m != n :: t.up[m] == s.up[m] && t.down[m] == s.down[m]
    ensures |Requesting(t)| + Count(RequestFrom(s, n)) == |Requesting(s)| + Count(RequestFrom(t, n))
    ensures |Invalidating(t)| + Count(InvalidateTo(s, n)) == |Invalidating(s)| + Count(InvalidateTo(t, n))
    ensures |Acking(t)| + Count(AckFrom(s, n)) == |Acking(s)| + Count(AckFrom(t, n))
    ensures |Granting(t)| + Count(GrantTo(s, n)) == |Granting(s)| + Count(GrantTo(t, n))
  {
    OneElement(Requesting(s), Requesting(t), n);
    OneElement(Invalidating(s), Invalidating(t), n);
    OneElement(Acking(s), Acking(t), n);
    OneElement(Granting(s), Granting(t), n);
  }

  lemma ReceiveRank(s: Sys, n: nat)
    requires Inv(s) && IsNode(n) && s.down[n] != []
    ensures Rank(NodeStep(s, n)) < Rank(s)
  {
    var t := NodeStep(s, n);
    assert NodeOk(s, n, 0);
    LocalRank(s, t, n);
    if s.down[n][0] == SEND_PAGE {
      assert t.down[n] == [] || t.down[n] == [INVALIDATE];
      assert s.down[n] == [SEND_PAGE] + t.down[n];
    } else {
      assert s.down[n] == [INVALIDATE] && t.down[n] == [];
    }
  }

  /** Taking a message off a node's connection to the coordinator. */
  lemma TakeUpRank(s: Sys, n: nat)
    requires Inv(s) && IsNode(n) && s.up[n] != []
    ensures Rank(TakeUp(s, n)) + (if s.up[n][0] == INVALIDATE_ACK then 1 else 140) == Rank(s)
  {
    var t := TakeUp(s, n);
    assert NodeOk(s, n, 0);
    LocalRank(s, t, n);
    if |s.up[n]| == 1 {
      assert t.up[n] == [];
    } else {
      assert t.up[n] == [s.up[n][1]];
    }
  }

  lemma GrantAtOnceRank(s: Sys, t: Sys, n: nat)
    requires Shape(s) && Shape(t) && IsNode(n) && !s.rec.active && !t.rec.active
    requires s.down[n] == [] && t.down == s.down[n := s.down[n] + [SEND_PAGE]] && t.up == s.up
    requires t.rec.deferred == s.rec.deferred
    ensures Rank(t) == Rank(s) + 1
  {
    assert t.down[n] == [SEND_PAGE];
    LocalRank(s, t, n);
  }

  lemma BroadcastRank(s: Sys, t: Sys)
    requires Shape(s) && Shape(t) && !s.rec.active && t.up == s.up
    requires t.rec.deferred == s.rec.deferred
    requires forall m: nat | m < WIDTH :: t.down[m] == s.down[m] || t.down[m] == s.down[m] + [INVALIDATE]
    ensures Rank(t) <= Rank(s) + 130
  {
    assert Requesting(t) == Requesting(s) && Acking(t) == Acking(s) && Granting(t) == Granting(s);
    CardinalityBelow(Invalidating(t), WIDTH);
  }

  /** Executing a request puts one grant or at most one INVALIDATE per node in flight. */
  lemma ExecuteRank(s: Sys, n: nat)
    requires InvWith(s, n) && IsNode(n) && !s.rec.active
    ensures Shape(Outgoing(s, Execute(s.rec, s.dir, RequestOf(s.page, n, s.workers[n].want), NodeFds())))
    ensures Rank(Outgoing(s, Execute(s.rec, s.dir, RequestOf(s.page, n, s.workers[n].want), NodeFds()))) <= Rank(s) + 130
  {
    var q := RequestOf(s.page, n, s.workers[n].want);
    var t := Outgoing(s, Execute(s.rec, s.dir, q, NodeFds()));
    ExecuteKeeps(s, n);
    Quiet(s, n, n);
    assert NodeOk(s, n, n);
    if q.kind == WRITE && InvalidateSet(s.dir, n) != {} {
      DeliverBroadcast(s.down, InvalidateSet(s.dir, n), InvalidatePacket(s.page, 0), NodeFds(), 0, Code);
      BroadcastRank(s, t);
    } else if q.kind == READ && s.dir.owner != 0 {
      DeliverOne(s.down, s.dir.owner, InvalidatePacket(s.page, n), Code);
      BroadcastRank(s, t);
    } else {
      DeliverOne(s.down, n, Grant(s.page), Code);
      GrantAtOnceRank(s, t, n);
    }
  }

  lemma LastAckRank(s: Sys, n: nat)
    requires Inv(s) && IsNode(n) && s.up[n] != [] && s.up[n][0] == INVALIDATE_ACK && s.rec.expectedAcks == 1
    ensures Shape(CoordinatorStep(s, n)) && Rank(CoordinatorStep(s, n)) < Rank(s)
  {
    TakeUpRank(s, n);
    AckOwing(s, n);
    var granted := LastAckKeeps(s, n);
    var t, a := TakeUp(s, n), s.rec.activeNode;
    assert NodeOk(s, a, 0);
    LocalRank(t, granted, a);
    assert Rank(granted) < Rank(t);
    if s.rec.deferred != [] {
      var popped := WithQueue(granted, s.rec.deferred[1..]);
      LocalRank(granted, popped, 0);
      assert Rank(popped) + 139 == Rank(granted);
      ExecuteRank(popped, s.rec.deferred[0].node);
    }
  }

  lemma CoordinatorRank(s: Sys, n: nat)
    requires Inv(s) && IsNode(n) && s.up[n] != []
    ensures Shape(CoordinatorStep(s, n)) && Rank(CoordinatorStep(s, n)) < Rank(s)
  {
    var t, u := TakeUp(s, n), CoordinatorStep(s, n);
    CoordinatorKeeps(s, n);
    TakeUpRank(s, n);
    if s.up[n][0] == INVALIDATE_ACK {
      AckOwing(s, n);
      if s.rec.expectedAcks == 1 {
        LastAckRank(s, n);
      } else {
        LocalRank(t, u, 0);
      }
    } else {
      TakeRequestKeeps(s, n);
      if s.rec.active {
        LocalRank(t, u, 0);
      } else {
        ExecuteRank(t, n);
      }
    }
  }

  /** Every delivery lowers the rank. */
  lemma DeliveryLowersRank(s: Sys, st: Step)
    requires Inv(s) && Enabled(s, st) && Delivery(st)
    ensures Inv(Next(s, st)) && Rank(Next(s, st)) < Rank(s)
  {
    StepKeeps(s, st);
    match st
    case Issue(n, kind) =>
    case CoordinatorReceives(n) => CoordinatorRank(s, n);
    case NodeReceives(n) => ReceiveRank(s, n);
  }

  /** Once no new requests arrive, every run is over after at most Rank(s) deliveries. */
  lemma {:induction false} DeliveriesTerminate(s: Sys, steps: seq<Step>)
    requires Inv(s) && Runs(s, steps) && forall st <- steps :: Delivery(st)
    ensures Inv(After(s, steps)) && |steps| + Rank(After(s, steps)) <= Rank(s)
    decreases |steps|
  {
    if steps != [] {
      DeliveryLowersRank(s, steps[0]);
      DeliveriesTerminate(Next(s, steps[0]), steps[1..]);
    }
  }

  lemma QuiescentIffNoDelivery(s: Sys)
    requires Shape(s)
    ensures Quiescent(s) <==> forall st :: Delivery(st) ==> !Enabled(s, st)
  {
    if forall st :: Delivery(st) ==> !Enabled(s, st) {
      forall n: nat | IsNode(n)
        ensures s.up[n] == [] && s.down[n] == []
      {
        assert !Enabled(s, CoordinatorReceives(n)) && !Enabled(s, NodeReceives(n));
      }
    }
  }

  /** Any run, of reads and writes alike, that ends with nothing in flight and in which no READ was started
      right after a READ with more waiting, has granted every request that was made. */
  lemma RunsComplete(s: Sys, steps: seq<Step>)
    requires Inv(s) && !Stranded(s) && Runs(s, steps) && NoReadAfterRead(s, steps)
    requires Shape(After(s, steps)) && Quiescent(After(s, steps))
    ensures forall n: nat :: IsNode(n) ==> After(s, steps).workers[n].want == 0
  {
    NeverStrandedIffNoReadAfterRead(s, steps);
    QuiescentUngrantedIffStranded(After(s, steps));
  }

  /** However the messages in flight are interleaved, a run of deliveries is at most Rank(s) long; one that
      cannot be extended, and in which no READ was started right after a READ with more waiting, has granted
      every request. */
  lemma DeliveryRunsComplete(s: Sys, steps: seq<Step>)
    requires Inv(s) && !Stranded(s) && Runs(s, steps) && forall st <- steps :: Delivery(st)
    ensures |steps| <= Rank(s) && Shape(After(s, steps))
    ensures NoReadAfterRead(s, steps) && (forall st :: Delivery(st) ==> !Enabled(After(s, steps), st)) ==>
              forall n: nat :: IsNode(n) ==> After(s, steps).workers[n].want == 0
  {
    DeliveriesTerminate(s, steps);
    var t := After(s, steps);
    if NoReadAfterRead(s, steps) && forall st :: Delivery(st) ==> !Enabled(t, st) {
      QuiescentIffNoDelivery(t);
      RunsComplete(s, steps);
    }
  }

  /** In particular from a state in which nodes only write, whatever the interleaving. */
  lemma WriteRunsComplete(s: Sys, steps: seq<Step>)
    requires Inv(s) && WritesOnly(s) && Runs(s, steps) && forall st <- steps :: Delivery(st)
    ensures |steps| <= Rank(s) && Shape(After(s, steps))
    ensures (forall st :: Delivery(st) ==> !Enabled(After(s, steps), st)) ==>
              forall n: nat :: IsNode(n) ==> After(s, steps).workers[n].want == 0
  {
    WriteRunsNeverStrand(s, steps);
    DeliveryRunsComplete(s, steps);
  }

  /** From the start: a run in which nodes only write, ending where nothing can be delivered, has granted
      every request that was made. */
  lemma WritesFromTheStart(page: nat, steps: seq<Step>)
    requires Runs(Init(page), steps) && forall st <- steps :: st.Issue? ==> st.kind == WRITE
    requires Shape(After(Init(page), steps)) && Quiescent(After(Init(page), steps))
    ensures forall n: nat :: IsNode(n) ==> After(Init(page), steps).workers[n].want == 0
  {
    InitHolds(page);
    WriteRunsNeverStrand(Init(page), steps);
    RunsComplete(Init(page), steps);
  }
}
