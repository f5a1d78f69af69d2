/** Left-over requests of the home node: two of its threads faulted on the page, and when the second request is
    popped the page is there. A read does nothing. A write is served, but with the page VALID instead of
    WRITE_PENDING the last acknowledgement installs what the slot holds from an earlier transaction. */
module HomeLeftovers {
  import opened Wire
  import opened Bitmap
  import opened Directory
  import opened PageStatus
  import opened Channels
  import opened HomeSpec
  import opened HomeRuns
  import opened HomeProofs
  import opened HomeTheorems
  import opened HomeTransactions
  import opened HomeSafety

  function WithPayload(s: Sys, p: Page): Sys {
    s.(home := s.home.(pending := s.home.pending.(payload := p)))
  }

  /** The home node's left-over write is collecting acknowledgements, and the slot happens to hold the latest value. */
  ghost predicate CollectingForHome(s: Sys) {
    && Inv(s) && s.txn == Serving(s.home.me, true) && Collecting(s, s.home.me)
    && s.home.status == VALID && s.home.pending.payload == s.latest
  }

  /** Apart from the last acknowledgement, a delivery does not look at the slot's page. */
  lemma PayloadRidesAlong(s: Sys, st: Step, p: Page)
    requires CollectingForHome(s) && Enabled(s, st) && Delivery(st) && !(st.HomeReceives? && s.home.pending.expectedAcks == 1)
    ensures CollectingForHome(Next(s, st)) && Next(s, st).latest == s.latest && Rank(Next(s, st)) < Rank(s)
    ensures Enabled(WithPayload(s, p), st) && Next(WithPayload(s, p), st) == WithPayload(Next(s, st), p)
  {
    var me := s.home.me;
    DeliveryAdvances(s, st);
    if st.NodeReceives? {
      NodePayload(s, st.node, p);
      DropKeeps(s, me, st.node);
    } else {
      AckPayload(s, st.node, p);
      CountAckKeeps(s, me, st.node);
    }
  }

  lemma NodePayload(s: Sys, m: nat, p: Page)
    requires CollectingForHome(s) && Enabled(s, NodeReceives(m))
    ensures NodeStep(WithPayload(s, p), m) == WithPayload(NodeStep(s, m), p)
    ensures NodeStep(s, m).txn == s.txn
  {
    assert Silent(s, s.home.me);
    assert Dropping(s, m);
  }

  lemma AckPayload(s: Sys, m: nat, p: Page)
    requires CollectingForHome(s) && Enabled(s, HomeReceives(m)) && s.home.pending.expectedAcks > 1
    ensures HomeStep(WithPayload(s, p), m) == WithPayload(HomeStep(s, m), p)
    ensures HomeStep(s, m).txn == s.txn && HomeStep(s, m).home.status == VALID
  {
    assert Silent(s, s.home.me);
    assert Dropping(s, m);
  }

  /** The last acknowledgement installs the slot's page, whatever it is. */
  lemma LastAckInstalls(s: Sys, m: nat, p: Page)
    requires CollectingForHome(s) && Enabled(s, HomeReceives(m)) && s.home.pending.expectedAcks == 1
    ensures var t := HomeStep(WithPayload(s, p), m);
      && Enabled(WithPayload(s, p), HomeReceives(m))
      && Shape(t) && t.home.status == VALID && t.home.page == p && t.latest == s.latest && t.home.me == s.home.me
  {
    assert Silent(s, s.home.me);
    assert Dropping(s, m);
  }

  /** With any other page in the slot, the acknowledgements end with a stale copy at the home node. */
  lemma {:induction false} StalePayload(s: Sys, p: Page)
    requires CollectingForHome(s) && p != s.latest
    ensures Shape(WithPayload(s, p)) && CanGoStale(WithPayload(s, p))
    decreases Rank(s)
  {
    var st := TransactionProgress(s);
    if st.HomeReceives? && s.home.pending.expectedAcks == 1 {
      LastAckInstalls(s, st.node, p);
      StaleNow(HomeStep(WithPayload(s, p), st.node));
      StaleLater(WithPayload(s, p), st);
    } else {
      PayloadRidesAlong(s, st, p);
      StalePayload(Next(s, st), p);
      StaleLater(WithPayload(s, p), st);
    }
  }

  /** Between transactions the slot's page does not matter. */
  lemma SlotIsFree(s: Sys, p: Page)
    requires Inv(s) && s.txn == Idle
    ensures Inv(WithPayload(s, p)) && (Enabled(s, Leftover(s.home.me, true)) ==> Enabled(WithPayload(s, p), Leftover(s.home.me, true)))
  {
    var t := WithPayload(s, p);
    forall m: nat | IsNode(m)
      ensures Silent(t, m) && CopyOk(t, m)
    {
      assert Silent(s, m) && CopyOk(s, m);
    }
  }

  lemma LeftoverWithPayload(s: Sys, p: Page)
    requires Shape(s) && s.home.status == VALID && NeedsAcks(s.home, s.home.me, HomeFds(s.home.me))
    ensures LeftoverStep(WithPayload(s, p), true) == WithPayload(LeftoverStep(s, true), p)
    ensures LeftoverStep(s, true).home.status == VALID && LeftoverStep(s, true).latest == s.latest
    ensures LeftoverStep(s, true).home.pending.payload == s.home.pending.payload
    ensures LeftoverStep(s, true).home.me == s.home.me
  {
  }

  /** A left-over write is safe exactly when no further run of safe steps leaves a stale copy: nobody else holds
      the page, or the slot happens to hold its contents. */
  lemma LeftoverSafeIffNeverStale(s: Sys)
    requires Inv(s) && Enabled(s, Leftover(s.home.me, true))
    ensures Shape(LeftoverStep(s, true))
    ensures SafeLeftover(s) <==> !CanGoStale(LeftoverStep(s, true))
  {
    StepKeepsIffSafe(s, Leftover(s.home.me, true));
    if SafeLeftover(s) {
      NeverStale(LeftoverStep(s, true));
    } else {
      var u, p := WithPayload(s, s.latest), s.home.pending.payload;
      SlotIsFree(s, s.latest);
      LeftoverWriteKeeps(u);
      LeftoverWithPayload(u, p);
      assert WithPayload(u, p) == s;
      LeftoverReady(u);
      LeftoverCollects(u, u.(txn := Serving(u.home.me, true)));
      StalePayload(LeftoverStep(u, true), p);
    }
  }

  /** The home node reads a page that a worker owns. */
  lemma HomeFetchesBack(s: Sys, o: nat) returns (t: Sys)
    requires Inv(s) && s.txn == Idle && s.home.status != VALID && s.home.dir == Dir(MODIFIED, o, {}) && o != s.home.me && IsNode(o)
    ensures Follow(s, Fault(s.home.me, false), NodeReceives(o), HomeReceives(o), t)
    ensures Inv(t) && t.txn == Idle && t.home.me == s.home.me && t.home.status == VALID && t.latest == s.latest
    ensures t.home.dir == Dir(SHARED, 0, {o, s.home.me}) && t.home.pending.payload == s.home.pending.payload
  {
    var me := s.home.me;
    assert CopyOk(s, me);
    var a := FaultStep(s, me, false);
    FetchIsSent(s, o);
    OwnerServes(a, me, false);
    var b := NodeStep(a, o);
    t := HomeStep(b, o);
    PageComesHome(b, o);
  }

  lemma FetchIsSent(s: Sys, o: nat)
    requires Inv(s) && s.txn == Idle && s.home.status == EMPTY && s.home.dir == Dir(MODIFIED, o, {}) && o != s.home.me && IsNode(o)
    ensures var a := FaultStep(s, s.home.me, false);
      && Enabled(s, Fault(s.home.me, false)) && Inv(a) && a.txn == Serving(s.home.me, false) && Fetching(a, s.home.me, false)
      && a.toNode[o] != [] && a.home.dir == s.home.dir && a.home.me == s.home.me && a.latest == s.latest
      && a.home.pending.payload == s.home.pending.payload
  {
    var me := s.home.me;
    HomeFetchKeeps(s, false);
    assert Silent(s, o);
    DeliverOne(s.toNode, o, FetchPacket(s.index, me), Whole);
  }

  lemma PageComesHome(b: Sys, o: nat)
    requires Coherent(b) && b.txn == Serving(b.home.me, false) && Fetching(b, b.home.me, false)
    requires b.home.dir == Dir(MODIFIED, o, {}) && IsNode(o) && b.toHome[o] != []
    ensures var t := HomeStep(b, o);
      && Enabled(b, HomeReceives(o)) && Inv(t) && t.txn == Idle && t.home.me == b.home.me && t.home.status == VALID
      && t.latest == b.latest && t.home.dir == Dir(SHARED, 0, {o, b.home.me}) && t.home.pending.payload == b.home.pending.payload
  {
    FetchedForRead(b, b.home.me);
    PageInHand(b, b.home.me, false);
    assert CopyOk(HomeStep(b, o), b.home.me);
  }

  /** Node 1 becomes the owner and stores a value. */
  lemma ToStore(index: nat, v: Page) returns (u: Sys)
    ensures var start, steps := Init(index, 2), [Fault(1, true), HomeReceives(1), NodeReceives(1)] + [Store(1, v)];
      Runs(start, steps) && SafeRun(start, steps) && After(start, steps) == u
    ensures Inv(u) && u.txn == Idle && u.home.me == 2 && u.home.status != VALID && u.home.dir == Dir(MODIFIED, 1, {})
    ensures u.latest == v && u.home.pending.payload == ZeroPage()
  {
    var start, first := Init(index, 2), [Fault(1, true), HomeReceives(1), NodeReceives(1)];
    InitHolds(index, 2);
    var t := FirstFault(start, 1, true);
    RunExtends(start, first, Store(1, v));
    StoreKeeps(t, 1, v);
    u := StoreStep(t, 1, v);
  }

  lemma SharedBack(s: Sys, o: nat)
    requires Inv(s) && s.txn == Idle && s.home.status == VALID && IsNode(o) && o != s.home.me
    requires s.home.dir == Dir(SHARED, 0, {o, s.home.me}) && s.home.pending.payload != s.latest
    ensures Enabled(s, Leftover(s.home.me, true)) && !SafeLeftover(s)
  {
    assert o in Connected(InvalidateSet(s.home.dir, s.home.me) - {s.home.me}, HomeFds(s.home.me));
  }

  /** A run of safe steps from the start to a state in which a left-over write is unsafe. */
  lemma ToLeftover(index: nat, v: Page) returns (s: Sys)
    requires v != ZeroPage()
    ensures var start := Init(index, 2);
      var steps := [Fault(1, true), HomeReceives(1), NodeReceives(1)] + [Store(1, v)]
                   + [Fault(2, false)] + [NodeReceives(1)] + [HomeReceives(1)];
      Runs(start, steps) && SafeRun(start, steps) && After(start, steps) == s
    ensures Inv(s) && Enabled(s, Leftover(2, true)) && s.home.me == 2 && !SafeLeftover(s)
  {
    var u := ToStore(index, v);
    s := HomeFetchesBack(u, 1);
    RunsOn(Init(index, 2), [Fault(1, true), HomeReceives(1), NodeReceives(1)] + [Store(1, v)],
           Fault(2, false), NodeReceives(1), HomeReceives(1), s);
    SharedBack(s, 1);
  }

  /** It happens: node 1 writes and stores a value, the home node, 2, reads it, and a left-over write follows. */
  lemma LeftoverHappens(index: nat, v: Page) returns (s: Sys)
    requires v != ZeroPage()
    ensures var start := Init(index, 2);
      var steps := [Fault(1, true), HomeReceives(1), NodeReceives(1)] + [Store(1, v)]
                   + [Fault(2, false)] + [NodeReceives(1)] + [HomeReceives(1)];
      Runs(start, steps) && SafeRun(start, steps) && After(start, steps) == s
    ensures Enabled(s, Leftover(2, true)) && !SafeLeftover(s) && CopiesLatest(s)
    ensures Shape(LeftoverStep(s, true)) && CanGoStale(LeftoverStep(s, true))
  {
    s := ToLeftover(index, v);
    InvCopies(s);
    LeftoverSafeIffNeverStale(s);
  }

  /** Three safe steps lead from s to t. */
  predicate Follow(s: Sys, x: Step, y: Step, z: Step, t: Sys) {
    && Enabled(s, x) && SafeStep(s, x)
    && var a := Next(s, x);
       && Enabled(a, y) && SafeStep(a, y)
       && var b := Next(a, y);
          Enabled(b, z) && SafeStep(b, z) && Next(b, z) == t
  }

  lemma RunsOn(s: Sys, xs: seq<Step>, x: Step, y: Step, z: Step, t: Sys)
    requires Runs(s, xs) && SafeRun(s, xs) && Follow(After(s, xs), x, y, z, t)
    ensures var steps := xs + [x] + [y] + [z]; Runs(s, steps) && SafeRun(s, steps) && After(s, steps) == t
  {
    RunExtends(s, xs, x);
    RunExtends(s, xs + [x], y);
    RunExtends(s, xs + [x] + [y], z);
  }
}
