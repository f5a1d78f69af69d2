/** The two faults the live path cannot serve: after either of them, and only then, some further run of
    safe faults and stores leaves a node with a copy that is not the last value stored. */
module HomeSafety {
  import opened Wire
  import opened Bitmap
  import opened Directory
  import opened PageStatus
  import opened Channels
  import opened HomeSpec
  import opened HomeRuns
  import opened HomeProofs
  import opened HomeTheorems
  import FaultQueue
  import FaultRuns

  /** Some run whose own faults are safe ends with a stale copy. */
  ghost predicate CanGoStale(s: Sys)
    requires Shape(s)
  {
    exists steps: seq<Step> ::
      Runs(s, steps) && SafeRun(s, steps) && Shape(After(s, steps)) && !CopiesLatest(After(s, steps))
  }

  lemma StaleNow(s: Sys)
    requires Shape(s) && !CopiesLatest(s)
    ensures CanGoStale(s)
  {
    assert Runs(s, []) && SafeRun(s, []) && After(s, []) == s;
  }

  lemma StaleLater(s: Sys, st: Step)
    requires Enabled(s, st) && SafeStep(s, st) && Shape(Next(s, st)) && CanGoStale(Next(s, st))
    ensures CanGoStale(s)
  {
    var t := Next(s, st);
    var steps :| Runs(t, steps) && SafeRun(t, steps) && Shape(After(t, steps)) && !CopiesLatest(After(t, steps));
    var all := [st] + steps;
    assert all[1..] == steps;
    assert Runs(s, all) && SafeRun(s, all) && After(s, all) == After(t, steps);
  }

  // ---- The home node writes a page it has no copy of while others share it ----

  /** Nobody is told to drop the page, so a sharer still has the old contents after the home node's first store. */
  lemma HomeWriteOverSharers(s: Sys)
    requires Inv(s) && Enabled(s, Fault(s.home.me, true)) && !Safe(s, s.home.me, true)
    ensures Shape(FaultStep(s, s.home.me, true)) && CanGoStale(FaultStep(s, s.home.me, true))
  {
    var me := s.home.me;
    var t := FaultStep(s, me, true);
    assert CopyOk(s, me);
    var sharer :| sharer in s.home.dir.sharers;
    assert CopyOk(s, sharer);
    assert t.txn == Idle && Owns(t, me);
    var v := ZeroPage()[0 := 1];
    assert v[0] != ZeroPage()[0];
    var u := StoreStep(t, me, v);
    assert StatusOf(u, sharer) == VALID && PageOf(u, sharer) == ZeroPage();
    StaleNow(u);
    StaleLater(t, Store(me, v));
  }

  // ---- A worker reads a page another worker owns ----

  lemma ThirdNode(a: nat, b: nat, c: nat) returns (m: nat)
    ensures IsNode(m) && m != a && m != b && m != c
  {
    m := if a != 1 && b != 1 && c != 1 then 1 else if a != 2 && b != 2 && c != 2 then 2
         else if a != 3 && b != 3 && c != 3 then 3 else 4;
  }

  /** A page nobody owns and the home node has no copy of is served as zeros, whatever its latest value is. */
  lemma ServedZeros(s: Sys, m: nat)
    requires Coherent(s) && s.txn == Serving(m, false) && Requesting(s, m, false)
    requires s.home.dir.state == SHARED && s.home.me !in s.home.dir.sharers && m !in s.home.dir.sharers
    requires s.latest != ZeroPage()
    ensures CanGoStale(s)
  {
    RequestInHand(s, m, false);
    var t, me := Taken(s, m), s.home.me;
    assert CopyOk(s, me);
    var p := PagePacket(s.index, me, ZeroPage());
    DeliverOne(t.toNode, m, p, Whole);
    var u := HomeStep(s, m);
    assert Silent(t, m);
    assert u.toNode[m] == [p];
    assert u.copies == s.copies && u.latest == s.latest && u.home.me == me;
    var w := NodeStep(u, m);
    assert StatusOf(w, m) == VALID && PageOf(w, m) == ZeroPage();
    StaleNow(w);
    StaleLater(u, NodeReceives(m));
    StaleLater(s, HomeReceives(m));
  }

  /** The home node keeps no copy of what it forwards: when a third node reads, it gets zeros. */
  lemma ReadAfterForward(s: Sys, n: nat, o: nat)
    requires Coherent(s) && s.txn == Idle && s.latest != ZeroPage()
    requires IsNode(n) && IsNode(o) && s.home.dir == Dir(SHARED, 0, {o, n}) && s.home.me != n && s.home.me != o
    ensures CanGoStale(s)
  {
    var m := ThirdNode(n, o, s.home.me);
    assert CopyOk(s, m);
    RemoteFaultKeeps(s, m, false);
    ServedZeros(FaultStep(s, m, false), m);
    StaleLater(s, Fault(m, false));
  }

  /** The request reaches the home node, which fetches the page from its owner. */
  lemma ReadIsForwarded(a: Sys, n: nat) returns (c: Sys)
    requires Coherent(a) && a.txn == Serving(n, false) && Requesting(a, n, false)
    requires a.home.dir.state == MODIFIED && a.home.dir.owner != a.home.me
    ensures Coherent(c) && c.txn == a.txn && Fetching(c, n, false) && c.toHome[c.home.dir.owner] != []
    ensures c.home.dir == a.home.dir && c.latest == a.latest && c.home.me == a.home.me
    ensures CanGoStale(c) ==> CanGoStale(a)
  {
    var o := a.home.dir.owner;
    assert CopyOk(a, a.home.me);
    FetchStarts(a, n, false);
    var b := HomeStep(a, n);
    OwnerServes(b, n, false);
    c := NodeStep(b, o);
    if CanGoStale(c) {
      StaleLater(b, NodeReceives(o));
      StaleLater(a, HomeReceives(n));
    }
  }

  lemma WorkerReadsWorkersPage(s: Sys, n: nat)
    requires Inv(s) && Enabled(s, Fault(n, false)) && n != s.home.me && !Safe(s, n, false)
    ensures Shape(FaultStep(s, n, false)) && CanGoStale(FaultStep(s, n, false))
  {
    var o := s.home.dir.owner;
    assert CopyOk(s, n);
    RemoteFaultKeeps(s, n, false);
    var c := ReadIsForwarded(FaultStep(s, n, false), n);
    FetchedForRead(c, n);
    var d := HomeStep(c, o);
    GrantArrives(d, n, false);
    var e := NodeStep(d, n);
    ReadAfterForward(e, n, o);
    StaleLater(d, NodeReceives(n));
    StaleLater(c, HomeReceives(o));
  }

  lemma NeverStale(s: Sys)
    requires Inv(s)
    ensures !CanGoStale(s)
  {
    forall steps: seq<Step> | Runs(s, steps) && SafeRun(s, steps)
      ensures Shape(After(s, steps)) && CopiesLatest(After(s, steps))
    {
      RunKeeps(s, steps);
      InvCopies(After(s, steps));
    }
  }

  /** A fault is safe exactly when no further run of safe faults, deliveries and stores leaves a stale copy. */
  lemma SafeIffNeverStale(s: Sys, n: nat, isWrite: bool)
    requires Inv(s) && Enabled(s, Fault(n, isWrite))
    ensures Shape(Next(s, Fault(n, isWrite)))
    ensures Safe(s, n, isWrite) <==> !CanGoStale(Next(s, Fault(n, isWrite)))
  {
    var t := Next(s, Fault(n, isWrite));
    StepKeepsIffSafe(s, Fault(n, isWrite));
    if Safe(s, n, isWrite) {
      NeverStale(t);
    } else if n == s.home.me {
      HomeWriteOverSharers(s);
    } else {
      WorkerReadsWorkersPage(s, n);
    }
  }

  // ---- Both faults do happen ----

  /** A run from the start, all of whose faults are safe, to a state in which the fault is possible and unsafe,
      and in which serving it can leave a stale copy. */
  ghost predicate LeadsToUnsafe(start: Sys, steps: seq<Step>, n: nat, isWrite: bool) {
    && Runs(start, steps) && SafeRun(start, steps)
    && var s := After(start, steps);
       && Enabled(s, Fault(n, isWrite)) && !Safe(s, n, isWrite)
       && Shape(Next(s, Fault(n, isWrite))) && CanGoStale(Next(s, Fault(n, isWrite)))
  }

  /** The node's first fault on an untouched page, answered by another home node with zeros. */
  lemma FirstFault(s: Sys, n: nat, isWrite: bool) returns (t: Sys)
    requires Inv(s) && s.txn == Idle && s.home.dir == INITIAL && IsNode(n) && n != s.home.me
    ensures var steps := [Fault(n, isWrite), HomeReceives(n), NodeReceives(n)];
      Runs(s, steps) && SafeRun(s, steps) && After(s, steps) == t
    ensures Inv(t) && t.index == s.index && t.home.me == s.home.me && t.txn == Idle && t.latest == ZeroPage()
    ensures t.home.pending == s.home.pending && t.home.status != VALID
    ensures t.home.dir == if isWrite then Dir(MODIFIED, n, {}) else Dir(SHARED, 0, {n})
  {
    t := FirstFaultSteps(s, n, isWrite);
    ThreeSteps(s, Fault(n, isWrite), HomeReceives(n), NodeReceives(n));
  }

  lemma FirstFaultSteps(s: Sys, n: nat, isWrite: bool) returns (t: Sys)
    requires Inv(s) && s.txn == Idle && s.home.dir == INITIAL && IsNode(n) && n != s.home.me
    ensures Enabled(s, Fault(n, isWrite)) && Safe(s, n, isWrite)
    ensures var a := Next(s, Fault(n, isWrite));
      && Enabled(a, HomeReceives(n))
      && Enabled(Next(a, HomeReceives(n)), NodeReceives(n)) && t == Next(Next(a, HomeReceives(n)), NodeReceives(n))
    ensures Inv(t) && t.index == s.index && t.home.me == s.home.me && t.txn == Idle && t.latest == ZeroPage()
    ensures t.home.pending == s.home.pending && t.home.status != VALID
    ensures t.home.dir == if isWrite then Dir(MODIFIED, n, {}) else Dir(SHARED, 0, {n})
  {
    assert CopyOk(s, n) && CopyOk(s, s.home.me);
    var a := FaultStep(s, n, isWrite);
    RemoteFaultKeeps(s, n, isWrite);
    FirstAnswer(a, n, isWrite);
    var b := HomeStep(a, n);
    t := NodeStep(b, n);
    assert b.toNode[n] != [];
    GrantArrives(b, n, isWrite);
  }

  lemma FirstAnswer(a: Sys, n: nat, isWrite: bool)
    requires Coherent(a) && Backed(a) && a.txn == Serving(n, isWrite) && Requesting(a, n, isWrite)
    requires a.home.dir == INITIAL && a.home.status != VALID
    ensures var b := HomeStep(a, n);
      && Coherent(b) && Backed(b) && Granting(b, n, isWrite) && b.txn == a.txn
      && b.home.dir == (if isWrite then Dir(MODIFIED, n, {}) else Dir(SHARED, 0, {n}))
      && b.latest == a.latest && b.index == a.index && b.home.me == a.home.me
      && b.home.pending == a.home.pending && b.home.status == a.home.status
  {
    assert InvalidateSet(a.home.dir, n) == {};
    ServeZeros(a, n, isWrite);
  }

  lemma RunExtends(s: Sys, steps: seq<Step>, st: Step)
    requires Runs(s, steps) && SafeRun(s, steps) && Enabled(After(s, steps), st) && SafeStep(After(s, steps), st)
    ensures Runs(s, steps + [st]) && SafeRun(s, steps + [st]) && After(s, steps + [st]) == Next(After(s, steps), st)
    decreases |steps|
  {
    var all := steps + [st];
    if steps == [] {
      var t := Next(s, st);
      assert all == [st] && all[1..] == [];
      assert Runs(t, []) && SafeRun(t, []) && After(t, []) == t;
    } else {
      assert all[0] == steps[0] && all[1..] == steps[1..] + [st];
      RunExtends(Next(s, steps[0]), steps[1..], st);
    }
  }

  lemma RunBefore(s: Sys, x: Step, rest: seq<Step>)
    requires Enabled(s, x) && SafeStep(s, x) && Runs(Next(s, x), rest) && SafeRun(Next(s, x), rest)
    ensures Runs(s, [x] + rest) && SafeRun(s, [x] + rest) && After(s, [x] + rest) == After(Next(s, x), rest)
  {
    assert ([x] + rest)[0] == x && ([x] + rest)[1..] == rest;
  }

  lemma OneStep(s: Sys, x: Step)
    requires Enabled(s, x) && SafeStep(s, x)
    ensures Runs(s, [x]) && SafeRun(s, [x]) && After(s, [x]) == Next(s, x)
  {
    assert Runs(s, []) && SafeRun(s, []) && After(s, []) == s;
    RunExtends(s, [], x);
    assert [] + [x] == [x];
  }

  lemma ThreeSteps(s: Sys, x: Step, y: Step, z: Step)
    requires Enabled(s, x) && SafeStep(s, x)
    requires var a := Next(s, x); Enabled(a, y) && SafeStep(a, y) && Enabled(Next(a, y), z) && SafeStep(Next(a, y), z)
    ensures Runs(s, [x, y, z]) && SafeRun(s, [x, y, z]) && After(s, [x, y, z]) == Next(Next(Next(s, x), y), z)
  {
    OneStep(s, x);
    RunExtends(s, [x], y);
    assert [x] + [y] == [x, y];
    RunExtends(s, [x, y], z);
    assert [x, y] + [z] == [x, y, z];
  }

  /** Node 1 reads; the home node, 2, writes. */
  lemma HomeWriteOverSharersHappens(index: nat)
    ensures LeadsToUnsafe(Init(index, 2), [Fault(1, false), HomeReceives(1), NodeReceives(1)], 2, true)
  {
    InitHolds(index, 2);
    var t := FirstFault(Init(index, 2), 1, false);
    assert CopyOk(t, 2);
    HomeWriteOverSharers(t);
  }

  /** Node 1 writes and stores a value; node 3 reads. The home node is node 2. */
  lemma WorkerReadsWorkersPageHappens(index: nat, v: Page)
    requires v != ZeroPage()
    ensures LeadsToUnsafe(Init(index, 2), [Fault(1, true), HomeReceives(1), NodeReceives(1)] + [Store(1, v)], 3, false)
  {
    var s, steps := Init(index, 2), [Fault(1, true), HomeReceives(1), NodeReceives(1)];
    InitHolds(index, 2);
    var t := FirstFault(s, 1, true);
    RunExtends(s, steps, Store(1, v));
    var u := StoreStep(t, 1, v);
    StoreKeeps(t, 1, v);
    assert CopyOk(u, 3) && CopyOk(u, 2);
    WorkerReadsWorkersPage(u, 3);
  }

  // ---- A fault dropped because the queue is full ----

  /** The home node has a page that it shares, and counts it as absent. */
  ghost predicate Forgotten(t: Sys) {
    && Shape(t) && t.txn == Idle && SlotFree(t)
    && t.home.status == EMPTY && WellFormed(t.home.dir) && t.home.dir.state == SHARED && t.home.me in t.home.dir.sharers
    && forall m: nat :: IsNode(m) ==> Silent(t, m) && (m != t.home.me ==> CopyOk(t, m))
  }

  /** The store is tried again: the home node maps zeros and becomes the owner, and nobody is told. */
  lemma RetryMapsZeros(t: Sys)
    requires Forgotten(t)
    ensures var u := FaultStep(t, t.home.me, true);
      && Enabled(t, Fault(t.home.me, true)) && SafeStep(t, Fault(t.home.me, true)) && Next(t, Fault(t.home.me, true)) == u
      && Shape(u) && u.txn == Idle && u.latest == t.latest && u.home.me == t.home.me && Owns(u, u.home.me)
      && u.home.status == VALID && u.home.page == ZeroPage() && u.copies == t.copies
  {
  }

  lemma SharerGoesStale(t: Sys, m: nat)
    requires Forgotten(t) && IsNode(m) && m != t.home.me && m in t.home.dir.sharers
    ensures Shape(FaultStep(t, t.home.me, true)) && CanGoStale(FaultStep(t, t.home.me, true))
  {
    var me, u := t.home.me, FaultStep(t, t.home.me, true);
    RetryMapsZeros(t);
    assert CopyOk(t, m);
    assert ZeroPage()[0 := 1][0] != ZeroPage()[0];
    var v := if t.latest == ZeroPage() then ZeroPage()[0 := 1] else ZeroPage();
    var w := StoreStep(u, me, v);
    assert StatusOf(w, m) == VALID && PageOf(w, m) == t.latest;
    StaleNow(w);
    StaleLater(u, Store(me, v));
  }

  lemma ForgottenWithSharer(t: Sys, m: nat)
    requires Forgotten(t) && IsNode(m) && m != t.home.me && m in t.home.dir.sharers
    ensures CanGoStale(t)
  {
    RetryMapsZeros(t);
    SharerGoesStale(t, m);
    StaleLater(t, Fault(t.home.me, true));
  }

  /** b is t after zeros have been sent to node m for its read. */
  ghost predicate ZerosSent(t: Sys, m: nat, b: Sys)
    requires Shape(t) && IsNode(m)
  {
    && Shape(b) && b.home == t.home.(dir := ToShared(t.home.dir, m)) && b.txn == Serving(m, false)
    && b.index == t.index && b.latest == t.latest && b.copies == t.copies[m := t.copies[m].(status := PENDING)]
    && b.toNode[m] == [PagePacket(t.index, t.home.me, ZeroPage())] && b.toHome[m] == []
    && forall k: nat :: k < WIDTH && k != m ==> b.toNode[k] == t.toNode[k] && b.toHome[k] == t.toHome[k]
  }

  /** Another node asks to read, and is sent zeros. */
  lemma ForgottenServesZeros(t: Sys, m: nat) returns (b: Sys)
    requires Forgotten(t) && IsNode(m) && m != t.home.me && m !in t.home.dir.sharers
    ensures var a := FaultStep(t, m, false);
      && Enabled(t, Fault(m, false)) && SafeStep(t, Fault(m, false)) && Shape(a)
      && Enabled(a, HomeReceives(m)) && Shape(b) && b == HomeStep(a, m)
    ensures ZerosSent(t, m, b)
  {
    assert CopyOk(t, m) && Silent(t, m);
    var a := FaultStep(t, m, false);
    assert a.toHome[m] == [Packet(READ, t.index, m, ZeroPage())];
    b := HomeStep(a, m);
    DeliverOne(a.toNode, m, PagePacket(t.index, t.home.me, ZeroPage()), Whole);
    assert b.toHome[m] == [];
  }

  /** The zeros are still the latest value: the node becomes one more sharer. */
  lemma ForgottenGainsSharer(t: Sys, m: nat) returns (w: Sys)
    requires Forgotten(t) && t.latest == ZeroPage() && IsNode(m) && m != t.home.me && m !in t.home.dir.sharers
    ensures Forgotten(w) && w.home.me == t.home.me && m in w.home.dir.sharers
    ensures CanGoStale(w) ==> CanGoStale(t)
  {
    var b := ForgottenServesZeros(t, m);
    w := NodeStep(b, m);
    ZerosArrive(t, m, b);
    if CanGoStale(w) {
      StaleAfterThree(t, Fault(m, false), HomeReceives(m), NodeReceives(m));
    }
  }

  lemma ZerosArrive(t: Sys, m: nat, b: Sys)
    requires Forgotten(t) && t.latest == ZeroPage() && IsNode(m) && m != t.home.me && m !in t.home.dir.sharers
    requires ZerosSent(t, m, b)
    ensures var w := NodeStep(b, m); Forgotten(w) && w.home.me == t.home.me && m in w.home.dir.sharers
  {
    var w := NodeStep(b, m);
    assert w.toNode[m] == [];
    forall k: nat | IsNode(k)
      ensures Silent(w, k) && (k != t.home.me ==> CopyOk(w, k))
    {
      assert Silent(t, k) && (k != t.home.me ==> CopyOk(t, k));
    }
  }

  lemma StaleAfterThree(s: Sys, x: Step, y: Step, z: Step)
    requires Enabled(s, x) && SafeStep(s, x)
    requires var a := Next(s, x); Enabled(a, y) && SafeStep(a, y) && Enabled(Next(a, y), z) && SafeStep(Next(a, y), z)
    requires Shape(Next(Next(Next(s, x), y), z)) && CanGoStale(Next(Next(Next(s, x), y), z))
    ensures CanGoStale(s)
  {
    var a := Next(s, x);
    StaleLater(Next(a, y), z);
    StaleLater(a, y);
    StaleLater(s, x);
  }

  lemma ForgottenGoesStale(t: Sys)
    requires Forgotten(t)
    ensures CanGoStale(t)
  {
    var me := t.home.me;
    if t.latest != ZeroPage() {
      RetryMapsZeros(t);
      StaleNow(FaultStep(t, me, true));
      StaleLater(t, Fault(me, true));
    } else if m: nat :| IsNode(m) && m != me && m in t.home.dir.sharers {
      ForgottenWithSharer(t, m);
    } else {
      var m := ThirdNode(me, me, me);
      var w := ForgottenGainsSharer(t, m);
      ForgottenWithSharer(w, m);
    }
  }

  /** The home node writes to a page it has and does not own. The fault handler queues the fault, and it is
      served, or it drops it because the queue is full. Some further run of safe steps leaves a stale copy
      exactly when it was dropped. */
  lemma DroppedWriteGoesStale(s: Sys, node: FaultRuns.Node)
    requires Inv(s) && Enabled(s, Fault(s.home.me, true)) && s.home.status == VALID
    requires s.index < |node.status| && node.status[s.index] == VALID && |node.queue| <= FaultQueue.CAPACITY
    ensures var after := FaultRuns.OnFault(node, s.index, true);
      var t := if FaultRuns.Waiting(after.status[s.index]) then Next(s, Fault(s.home.me, true))
               else s.(home := s.home.(status := after.status[s.index]));
      Shape(t) && (CanGoStale(t) <==> |node.queue| == FaultQueue.CAPACITY)
  {
    assert CopyOk(s, s.home.me);
    if |node.queue| < FaultQueue.CAPACITY {
      SafeIffNeverStale(s, s.home.me, true);
    } else {
      var t := s.(home := s.home.(status := EMPTY));
      forall m: nat | IsNode(m)
        ensures Silent(t, m) && (m != t.home.me ==> CopyOk(t, m))
      {
        assert Silent(s, m) && CopyOk(s, m);
      }
      ForgottenGoesStale(t);
    }
  }

  /** It happens: the home node reads an untouched page, and writes to it when the queue is full. */
  lemma DroppedWriteHappens(index: nat, node: FaultRuns.Node)
    requires index < |node.status| && node.status[index] == VALID && |node.queue| == FaultQueue.CAPACITY
    ensures var start, steps := Init(index, 2), [Fault(2, false)];
      && Runs(start, steps) && SafeRun(start, steps)
      && var s := After(start, steps);
         && Enabled(s, Fault(2, true)) && s.home.status == VALID && CopiesLatest(s)
         && var t := s.(home := s.home.(status := FaultRuns.OnFault(node, index, true).status[index]));
            Shape(t) && CanGoStale(t)
  {
    var start, steps := Init(index, 2), [Fault(2, false)];
    InitHolds(index, 2);
    assert CopyOk(start, 2);
    var s := Next(start, Fault(2, false));
    OneStep(start, Fault(2, false));
    StepKeepsIffSafe(start, Fault(2, false));
    InvCopies(s);
    DroppedWriteGoesStale(s, node);
  }
}
