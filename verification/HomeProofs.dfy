/** Every step of the live path keeps the copies coherent. */
module HomeProofs {
  import opened Wire
  import opened Bitmap
  import opened Directory
  import opened PageStatus
  import opened Channels
  import opened HomeSpec
  import opened HomeRuns
  import SequencerSpec

  lemma InitHolds(index: nat, me: nat)
    requires IsNode(me)
    ensures Inv(Init(index, me))
  {
  }

  /** Every holder other than the home node is connected. */
  lemma HoldersConnected(d: Dir, me: nat, writer: nat)
    requires WellFormed(d) && IsNode(me)
    ensures Connected(InvalidateSet(d, writer) - {me}, HomeFds(me)) == InvalidateSet(d, writer) - {me}
    ensures forall m <- Holders(d) :: IsNode(m)
  {
  }

  // ---- Entering a phase ----

  /** All is silent, node n waits to write, every other worker's copy is known to the directory and the
      home node has none unless it is the writer. */
  ghost predicate ReadyToCollect(s: Sys, n: nat)
    requires Shape(s) && IsNode(n)
  {
    && WellFormed(s.home.dir)
    && s.toNode[0] == [] && s.toHome[0] == []
    && s.txn == Serving(n, true)
    && Waiting(s, n, true)
    && (n != s.home.me ==> s.home.status == EMPTY)
    && forall m: nat :: IsNode(m) ==> Silent(s, m) && (m != n && m != s.home.me ==> CopyOk(s, m))
  }

  /** t is s after n has been made the owner and the targets have been told to drop their copies. */
  ghost predicate Told(s: Sys, n: nat, targets: set<nat>, t: Sys)
    requires Shape(s) && IsNode(n)
  {
    && targets == InvalidateSet(s.home.dir, n) - {s.home.me}
    && |t.toNode| == WIDTH
    && t == s.(home := s.home.(dir := ToModified(s.home.dir, n), pending := t.home.pending), toNode := t.toNode)
    && forall m :: 0 <= m < WIDTH ==>
         t.toNode[m] == if m in targets then s.toNode[m] + [InvalidatePacket(s.index)] else s.toNode[m]
  }

  lemma ToldOwing(s: Sys, n: nat, targets: set<nat>, t: Sys)
    requires Shape(s) && IsNode(n) && ReadyToCollect(s, n) && Told(s, n, targets, t)
    ensures Owing(t) == targets
  {
    forall m: nat | m < WIDTH
      ensures Owes(t, m) <==> m in targets
    {
      assert m != 0 ==> Silent(s, m);
    }
    forall m: nat | m in targets
      ensures m < WIDTH
    {
      assert IsNode(m);
    }
  }

  lemma ToldDropping(s: Sys, n: nat, targets: set<nat>, t: Sys, m: nat)
    requires Shape(s) && IsNode(n) && ReadyToCollect(s, n) && Told(s, n, targets, t) && IsNode(m) && m != n
    ensures Dropping(t, m)
  {
    assert Silent(s, m);
    if m != s.home.me {
      assert CopyOk(s, m);
    }
  }

  lemma ToldFrame(s: Sys, n: nat, targets: set<nat>, t: Sys)
    requires Shape(s) && IsNode(n) && ReadyToCollect(s, n) && Told(s, n, targets, t)
    ensures Shape(t) && Waiting(t, n, true) && Silent(t, n) && Silent(t, t.home.me)
    ensures WellFormed(t.home.dir) && t.home.dir == ToModified(t.home.dir, n)
    ensures t.toNode[0] == [] && t.toHome[0] == []
  {
    assert Silent(s, n) && Silent(s, s.home.me);
  }

  lemma CollectingReached(s: Sys, n: nat, targets: set<nat>, t: Sys)
    requires Shape(s) && IsNode(n) && ReadyToCollect(s, n) && Told(s, n, targets, t) && targets != {}
    requires var p := t.home.pending;
      && p.requester == n && p.expectedAcks == |targets| && p.clientFd == (if n == s.home.me then -1 else n)
      && (p.payload == s.latest || (n == s.home.me && StatusOf(s, n) == WRITE_PENDING))
    ensures Coherent(t) && Collecting(t, n)
  {
    ToldOwing(s, n, targets, t);
    ToldFrame(s, n, targets, t);
    forall m: nat | IsNode(m) && m != n
      ensures Dropping(t, m)
    {
      ToldDropping(s, n, targets, t, m);
    }
  }

  lemma StartTells(s: Sys, n: nat, clientFd: int, payload: Page, targets: set<nat>, t: Sys)
    requires Shape(s) && IsNode(n) && WellFormed(s.home.dir)
    requires targets == InvalidateSet(s.home.dir, n) - {s.home.me}
    requires t == AfterReply(s, StartCollecting(s.home, n, clientFd, payload, s.index, HomeFds(s.home.me)))
    ensures Told(s, n, targets, t) && t.home.pending == Pending(n, WRITE, clientFd, |targets|, payload)
    ensures NeedsAcks(s.home, n, HomeFds(s.home.me)) ==> targets != {}
  {
    var me := s.home.me;
    HoldersConnected(s.home.dir, me, n);
    DeliverBroadcast(s.toNode, targets, InvalidatePacket(s.index), HomeFds(me), 0, Whole);
  }

  lemma CollectingStarts(s: Sys, n: nat, clientFd: int, payload: Page, t: Sys)
    requires Shape(s) && IsNode(n) && ReadyToCollect(s, n)
    requires NeedsAcks(s.home, n, HomeFds(s.home.me))
    requires clientFd == if n == s.home.me then -1 else n
    requires payload == s.latest || (n == s.home.me && StatusOf(s, n) == WRITE_PENDING)
    requires t == AfterReply(s, StartCollecting(s.home, n, clientFd, payload, s.index, HomeFds(s.home.me)))
    ensures Coherent(t) && Collecting(t, n) && Settled(t) == t
  {
    var me := s.home.me;
    var targets := InvalidateSet(s.home.dir, n) - {me};
    StartTells(s, n, clientFd, payload, targets, t);
    CollectingReached(s, n, targets, t);
  }

  /** The page leaves for node n, which is already a holder; all else is at rest. */
  lemma GrantingStarts(s: Sys, n: nat, isWrite: bool, p: Packet, t: Sys)
    requires Shape(s) && IsNode(n) && n != s.home.me && WellFormed(s.home.dir) && SlotFree(s)
    requires s.txn == Serving(n, isWrite) && s.toNode[0] == [] && s.toHome[0] == []
    requires Waiting(s, n, isWrite) && n in Holders(s.home.dir) && (isWrite ==> Owns(s, n))
    requires forall m: nat :: IsNode(m) ==> Silent(s, m) && (m != n ==> CopyOk(s, m))
    requires p.kind == SEND_PAGE && p.page == s.index && p.payload == s.latest
    requires t == s.(toNode := Deliver(s.toNode, Send(n, p), Whole))
    ensures Coherent(t) && Granting(t, n, isWrite) && Settled(t) == t
  {
    DeliverOne(s.toNode, n, p, Whole);
    assert Silent(s, n);
    assert t.toNode[n] == [p];
    forall m: nat | IsNode(m) && m != n
      ensures Silent(t, m) && CopyOk(t, m)
    {
      assert Silent(s, m) && CopyOk(s, m);
    }
    assert Silent(s, s.home.me);
  }

  // ---- Stores and faults ----

  lemma StoreKeeps(s: Sys, n: nat, v: Page)
    requires Inv(s) && Enabled(s, Store(n, v))
    ensures Inv(StoreStep(s, n, v))
  {
    var t := StoreStep(s, n, v);
    forall m: nat | IsNode(m)
      ensures Silent(t, m) && CopyOk(t, m)
    {
      assert Silent(s, m) && CopyOk(s, m);
    }
  }

  lemma RemoteFaultKeeps(s: Sys, n: nat, isWrite: bool)
    requires Coherent(s) && Enabled(s, Fault(n, isWrite)) && n != s.home.me
    ensures Coherent(FaultStep(s, n, isWrite)) && Requesting(FaultStep(s, n, isWrite), n, isWrite)
  {
    var t := FaultStep(s, n, isWrite);
    assert Silent(s, n) && CopyOk(s, n);
    forall m: nat | IsNode(m) && m != n
      ensures Silent(t, m) && CopyOk(t, m)
    {
      assert Silent(s, m) && CopyOk(s, m);
    }
    assert t.toHome[n] == [Packet(if isWrite then WRITE else READ, s.index, n, ZeroPage())];
  }

  /** The home node has the page and only asks to write it. */
  lemma HomeUpgradeKeeps(s: Sys)
    requires Coherent(s) && Backed(s) && Enabled(s, Fault(s.home.me, true)) && s.home.status == VALID
    ensures Inv(FaultStep(s, s.home.me, true))
  {
    var me := s.home.me;
    var t := FaultStep(s, me, true);
    var w := s.(txn := Serving(me, true), home := s.home.(status := WRITE_PENDING));
    assert Silent(s, me) && CopyOk(s, me);
    HoldersConnected(s.home.dir, me, me);
    forall m: nat | IsNode(m)
      ensures Silent(w, m) && (m != me ==> CopyOk(w, m))
    {
      assert Silent(s, m) && CopyOk(s, m);
    }
    if NeedsAcks(w.home, me, HomeFds(me)) {
      CollectingStarts(w, me, -1, w.home.pending.payload, AfterReply(w, LocalRequest(w.home, true, s.index, HomeFds(me))));
    } else {
      forall m: nat | IsNode(m)
        ensures Silent(t, m) && CopyOk(t, m)
      {
        assert Silent(w, m) && (m != me ==> CopyOk(w, m));
      }
    }
  }

  /** A left-over read of a page that is there changes nothing. */
  lemma LeftoverReadKeeps(s: Sys)
    requires Shape(s) && Enabled(s, Leftover(s.home.me, false))
    ensures Next(s, Leftover(s.home.me, false)) == s
  {
  }

  lemma LeftoverCollects(s: Sys, w: Sys)
    requires Inv(s) && Enabled(s, Leftover(s.home.me, true)) && w == s.(txn := Serving(s.home.me, true))
    requires NeedsAcks(s.home, s.home.me, HomeFds(s.home.me)) && s.home.pending.payload == s.latest
    requires forall m: nat :: IsNode(m) ==> Silent(w, m) && (m != s.home.me ==> CopyOk(w, m))
    ensures var t := LeftoverStep(s, true); Coherent(t) && Collecting(t, s.home.me) && t.txn == Serving(s.home.me, true)
  {
    var me := s.home.me;
    assert CopyOk(s, me);
    CollectingStarts(w, me, -1, w.home.pending.payload,
                     AfterReply(w, StartCollecting(w.home, me, -1, w.home.pending.payload, w.index, HomeFds(me))));
  }

  /** The slot holds something else, which the last acknowledgement will install. */
  lemma LeftoverLoses(s: Sys, t: Sys)
    requires Inv(s) && Enabled(s, Leftover(s.home.me, true)) && !SafeLeftover(s) && t == LeftoverStep(s, true)
    ensures !Coherent(t)
  {
    assert CopyOk(s, s.home.me);
    assert t.txn == Serving(s.home.me, true) && t.home.pending.payload == s.home.pending.payload;
  }

  /** A left-over write is served like an upgrade, except that the last acknowledgement installs what the slot holds. */
  lemma LeftoverWriteKeeps(s: Sys)
    requires Inv(s) && Enabled(s, Leftover(s.home.me, true))
    ensures Inv(LeftoverStep(s, true)) <==> SafeLeftover(s)
    ensures !SafeLeftover(s) ==> !Coherent(LeftoverStep(s, true))
  {
    if !NeedsAcks(s.home, s.home.me, HomeFds(s.home.me)) {
      LeftoverAtOnce(s);
    } else if s.home.pending.payload == s.latest {
      LeftoverReady(s);
      LeftoverCollects(s, s.(txn := Serving(s.home.me, true)));
    } else {
      LeftoverLoses(s, LeftoverStep(s, true));
    }
  }

  lemma LeftoverAtOnce(s: Sys)
    requires Inv(s) && Enabled(s, Leftover(s.home.me, true)) && !NeedsAcks(s.home, s.home.me, HomeFds(s.home.me))
    ensures Inv(LeftoverStep(s, true))
  {
    var me, t := s.home.me, LeftoverStep(s, true);
    assert Silent(s, me) && CopyOk(s, me);
    HoldersConnected(s.home.dir, me, me);
    forall m: nat | IsNode(m)
      ensures Silent(t, m) && CopyOk(t, m)
    {
      assert Silent(s, m) && CopyOk(s, m);
    }
  }

  lemma LeftoverReady(s: Sys)
    requires Inv(s) && Enabled(s, Leftover(s.home.me, true))
    ensures var w := s.(txn := Serving(s.home.me, true));
      forall m: nat :: IsNode(m) ==> Silent(w, m) && (m != s.home.me ==> CopyOk(w, m))
  {
    var w := s.(txn := Serving(s.home.me, true));
    forall m: nat | IsNode(m)
      ensures Silent(w, m) && (m != s.home.me ==> CopyOk(w, m))
    {
      assert Silent(s, m) && CopyOk(s, m);
    }
  }

  /** The home node fetches the page from its owner. */
  lemma HomeFetchKeeps(s: Sys, isWrite: bool)
    requires Coherent(s) && Backed(s) && Enabled(s, Fault(s.home.me, isWrite)) && s.home.status == EMPTY && s.home.dir.owner != 0
    ensures Inv(FaultStep(s, s.home.me, isWrite)) && Fetching(FaultStep(s, s.home.me, isWrite), s.home.me, isWrite)
  {
    var me, o := s.home.me, s.home.dir.owner;
    var t := FaultStep(s, me, isWrite);
    assert Silent(s, me) && CopyOk(s, me);
    assert CopyOk(s, o) && Silent(s, o);
    DeliverOne(s.toNode, o, FetchPacket(s.index, me), Whole);
    forall m: nat | IsNode(m) && m != me
      ensures (m != o ==> Silent(t, m)) && CopyOk(t, m)
    {
      assert Silent(s, m) && CopyOk(s, m);
    }
  }

  /** The home node maps an all-zero page. */
  lemma HomeZeroFill(s: Sys, isWrite: bool)
    requires Coherent(s) && Backed(s) && Enabled(s, Fault(s.home.me, isWrite)) && s.home.status == EMPTY && s.home.dir.owner == 0
    ensures Coherent(FaultStep(s, s.home.me, isWrite)) <==> Safe(s, s.home.me, isWrite)
    ensures Safe(s, s.home.me, isWrite) ==> Inv(FaultStep(s, s.home.me, isWrite))
  {
    var me := s.home.me;
    var t := FaultStep(s, me, isWrite);
    assert Silent(s, me) && CopyOk(s, me);
    if Safe(s, me, isWrite) {
      forall m: nat | IsNode(m)
        ensures Silent(t, m) && CopyOk(t, m)
      {
        assert Silent(s, m) && CopyOk(s, m);
      }
    } else {
      var other :| other in s.home.dir.sharers;
      assert CopyOk(s, other);
      assert !CopyOk(t, other);
    }
  }

  /** A fault of the home node keeps the copies coherent exactly when it is safe. */
  lemma HomeFaultKeeps(s: Sys, isWrite: bool)
    requires Inv(s) && Enabled(s, Fault(s.home.me, isWrite))
    ensures Inv(FaultStep(s, s.home.me, isWrite)) <==> Safe(s, s.home.me, isWrite)
  {
    assert CopyOk(s, s.home.me);
    if s.home.status == VALID {
      HomeUpgradeKeeps(s);
    } else if s.home.dir.owner != 0 {
      HomeFetchKeeps(s, isWrite);
    } else {
      HomeZeroFill(s, isWrite);
    }
  }

  // ---- The home node receives a request ----

  /** The packet from node n has been taken off its connection. */
  function Taken(s: Sys, n: nat): Sys
    requires Shape(s) && IsNode(n) && s.toHome[n] != []
  {
    s.(toHome := s.toHome[n := s.toHome[n][1..]])
  }

  /** With the request in hand, everything is silent. */
  lemma RequestInHand(s: Sys, n: nat, isWrite: bool)
    requires Coherent(s) && s.txn == Serving(n, isWrite) && Requesting(s, n, isWrite)
    ensures var t := Taken(s, n);
      && HomeStep(s, n) == Settled(AfterReply(t, RemoteRequest(s.home, n, if isWrite then WRITE else READ, n, s.index, HomeFds(s.home.me))))
      && (forall m: nat :: IsNode(m) ==> Silent(t, m) && (m != n ==> CopyOk(t, m)))
      && Waiting(t, n, isWrite)
  {
    var t := Taken(s, n);
    assert t.toHome[n] == [];
    forall m: nat | IsNode(m) && m != n
      ensures Silent(t, m) && CopyOk(t, m)
    {
      assert Silent(s, m) && CopyOk(s, m);
    }
  }

  /** With the request in hand and the home node's own copy dropped. */
  function GivenUp(s: Sys, n: nat): Sys
    requires Shape(s) && IsNode(n) && s.toHome[n] != []
  {
    Taken(s, n).(home := Drop(s.home))
  }

  lemma CopyGivenUp(s: Sys, n: nat)
    requires Coherent(s) && s.txn == Serving(n, true) && Requesting(s, n, true) && s.home.status == VALID
    ensures var u, me := GivenUp(s, n), s.home.me;
      && Waiting(u, n, true) && u.latest == s.home.page && me in Holders(s.home.dir)
      && forall m: nat :: IsNode(m) ==> Silent(u, m) && (m != n && m != me ==> CopyOk(u, m))
  {
    RequestInHand(s, n, true);
    var t, u, me := Taken(s, n), GivenUp(s, n), s.home.me;
    assert CopyOk(s, me);
    forall m: nat | IsNode(m)
      ensures Silent(u, m) && (m != n && m != me ==> CopyOk(u, m))
    {
      assert Silent(t, m) && (m != n ==> CopyOk(t, m));
    }
  }

  lemma WriteFromHomeCollects(s: Sys, n: nat)
    requires Coherent(s) && s.txn == Serving(n, true) && Requesting(s, n, true) && s.home.status == VALID
    requires NeedsAcks(s.home, n, HomeFds(s.home.me))
    ensures Coherent(HomeStep(s, n)) && Collecting(HomeStep(s, n), n) && HomeStep(s, n).txn == s.txn
  {
    RequestInHand(s, n, true);
    CopyGivenUp(s, n);
    var u := GivenUp(s, n);
    CollectingStarts(u, n, n, s.home.page,
                     AfterReply(u, StartCollecting(u.home, n, n, s.home.page, s.index, HomeFds(s.home.me))));
  }

  lemma WriteFromHomeGrants(s: Sys, n: nat)
    requires Coherent(s) && s.txn == Serving(n, true) && Requesting(s, n, true) && s.home.status == VALID
    requires !NeedsAcks(s.home, n, HomeFds(s.home.me))
    ensures Coherent(HomeStep(s, n)) && Granting(HomeStep(s, n), n, true) && HomeStep(s, n).txn == s.txn
  {
    RequestInHand(s, n, true);
    CopyGivenUp(s, n);
    HoldersConnected(s.home.dir, s.home.me, n);
    var u := GivenUp(s, n);
    var v := u.(home := u.home.(dir := ToModified(s.home.dir, n)));
    forall m: nat | IsNode(m) && m != n
      ensures Silent(v, m) && CopyOk(v, m)
    {
      assert Silent(u, m) && (m != s.home.me ==> CopyOk(u, m));
    }
    assert Silent(u, n);
    GrantingStarts(v, n, true, PagePacket(s.index, s.home.me, s.home.page), HomeStep(s, n));
  }

  /** The home node has the page and shares it with a reader. */
  lemma ReadFromHome(s: Sys, n: nat)
    requires Coherent(s) && Backed(s) && s.txn == Serving(n, false) && Requesting(s, n, false) && s.home.status == VALID
    ensures Coherent(HomeStep(s, n)) && Backed(HomeStep(s, n)) && HomeStep(s, n).txn == s.txn
    ensures Granting(HomeStep(s, n), n, false)
  {
    RequestInHand(s, n, false);
    var t, me, h := Taken(s, n), s.home.me, s.home;
    assert CopyOk(s, me);
    var v := t.(home := h.(dir := ToShared(h.dir, n)));
    forall m: nat | IsNode(m) && m != n
      ensures Silent(v, m) && CopyOk(v, m)
    {
      assert Silent(t, m) && CopyOk(t, m);
    }
    GrantingStarts(v, n, false, PagePacket(s.index, me, h.page), HomeStep(s, n));
  }

  /** The home node has the page: it serves it, and gives its own copy up to a writer. */
  lemma ServeFromHome(s: Sys, n: nat, isWrite: bool)
    requires Coherent(s) && Backed(s) && s.txn == Serving(n, isWrite) && Requesting(s, n, isWrite) && s.home.status == VALID
    ensures Coherent(HomeStep(s, n)) && Backed(HomeStep(s, n)) && HomeStep(s, n).txn == s.txn
    ensures if isWrite && NeedsAcks(s.home, n, HomeFds(s.home.me))
            then Collecting(HomeStep(s, n), n) else Granting(HomeStep(s, n), n, isWrite)
  {
    if !isWrite {
      ReadFromHome(s, n);
    } else if NeedsAcks(s.home, n, HomeFds(s.home.me)) {
      WriteFromHomeCollects(s, n);
    } else {
      WriteFromHomeGrants(s, n);
    }
  }

  lemma ZerosCollect(s: Sys, n: nat)
    requires Coherent(s) && Backed(s) && s.txn == Serving(n, true) && Requesting(s, n, true)
    requires s.home.status != VALID && s.home.dir.owner == 0 && NeedsAcks(s.home, n, HomeFds(s.home.me))
    ensures Coherent(HomeStep(s, n)) && Collecting(HomeStep(s, n), n) && HomeStep(s, n).txn == s.txn
  {
    RequestInHand(s, n, true);
    var t, me, h := Taken(s, n), s.home.me, s.home;
    assert CopyOk(s, me);
    HoldersConnected(h.dir, me, n);
    CollectingStarts(t, n, n, ZeroPage(), AfterReply(t, StartCollecting(h, n, n, ZeroPage(), s.index, HomeFds(me))));
  }

  lemma ZerosGranted(s: Sys, n: nat, isWrite: bool)
    requires Coherent(s) && Backed(s) && s.txn == Serving(n, isWrite) && Requesting(s, n, isWrite)
    requires s.home.status != VALID && s.home.dir.owner == 0 && !(isWrite && NeedsAcks(s.home, n, HomeFds(s.home.me)))
    ensures Coherent(HomeStep(s, n)) && Backed(HomeStep(s, n)) && Granting(HomeStep(s, n), n, isWrite)
    ensures HomeStep(s, n).txn == s.txn
  {
    RequestInHand(s, n, isWrite);
    var t, me, h := Taken(s, n), s.home.me, s.home;
    assert CopyOk(s, me);
    HoldersConnected(h.dir, me, n);
    var v := t.(home := h.(dir := if isWrite then ToModified(h.dir, n) else ToShared(h.dir, n)));
    forall m: nat | IsNode(m) && m != n
      ensures Silent(v, m) && CopyOk(v, m)
    {
      assert Silent(t, m) && CopyOk(t, m);
    }
    assert Silent(t, n);
    GrantingStarts(v, n, isWrite, PagePacket(s.index, me, ZeroPage()), HomeStep(s, n));
  }

  /** Nobody owns the page and the home node has no copy, so the page is still all zeros. */
  lemma ServeZeros(s: Sys, n: nat, isWrite: bool)
    requires Coherent(s) && Backed(s) && s.txn == Serving(n, isWrite) && Requesting(s, n, isWrite)
    requires s.home.status != VALID && s.home.dir.owner == 0
    ensures Coherent(HomeStep(s, n)) && Backed(HomeStep(s, n)) && HomeStep(s, n).txn == s.txn
    ensures if isWrite && NeedsAcks(s.home, n, HomeFds(s.home.me))
            then Collecting(HomeStep(s, n), n) else Granting(HomeStep(s, n), n, isWrite)
  {
    if isWrite && NeedsAcks(s.home, n, HomeFds(s.home.me)) {
      ZerosCollect(s, n);
    } else {
      ZerosGranted(s, n, isWrite);
    }
  }

  /** Another worker owns the page: the home node asks it. */
  lemma FetchStarts(s: Sys, n: nat, isWrite: bool)
    requires Coherent(s) && s.txn == Serving(n, isWrite) && Requesting(s, n, isWrite)
    requires s.home.status != VALID && s.home.dir.owner != 0
    ensures var t := HomeStep(s, n);
      Coherent(t) && Fetching(t, n, isWrite) && t.home.dir == s.home.dir && t.txn == s.txn && t.latest == s.latest
      && t.home.me == s.home.me && t.toNode[s.home.dir.owner] != []
  {
    RequestInHand(s, n, isWrite);
    var t, me, o := Taken(s, n), s.home.me, s.home.dir.owner;
    assert CopyOk(s, me) && CopyOk(t, o) && Silent(t, o) && Silent(t, n);
    DeliverOne(t.toNode, o, FetchPacket(s.index, me), Whole);
    var u := HomeStep(s, n);
    forall m: nat | IsNode(m) && m != n
      ensures (m != o ==> Silent(u, m)) && CopyOk(u, m)
    {
      assert Silent(t, m) && CopyOk(t, m);
    }
  }

  // ---- Three hops: the fetched page comes back through the home node ----

  /** The owner answers the fetch with the latest value and keeps its copy. */
  lemma OwnerServes(s: Sys, n: nat, isWrite: bool)
    requires Coherent(s) && s.txn == Serving(n, isWrite) && Fetching(s, n, isWrite)
    requires s.toNode[s.home.dir.owner] != []
    ensures var t := NodeStep(s, s.home.dir.owner);
      Coherent(t) && Fetching(t, n, isWrite) && t.home == s.home && t.txn == s.txn && t.latest == s.latest
      && t.toHome[s.home.dir.owner] != []
  {
    var o := s.home.dir.owner;
    var t := NodeStep(s, o);
    assert CopyOk(s, o);
    assert t.toNode[o] == [] && t.toHome[o] == [PagePacket(s.index, o, s.latest)];
    forall m: nat | IsNode(m) && m != n && m != o
      ensures Silent(t, m) && CopyOk(t, m)
    {
      assert Silent(s, m) && CopyOk(s, m);
    }
  }

  /** With the fetched page in hand, everything is silent and only the owner has a copy. */
  lemma PageInHand(s: Sys, n: nat, isWrite: bool)
    requires Coherent(s) && s.txn == Serving(n, isWrite) && Fetching(s, n, isWrite)
    requires s.toHome[s.home.dir.owner] != []
    ensures var o := s.home.dir.owner; var t := Taken(s, o); var p := PagePacket(s.index, o, s.latest);
      && HomeStep(s, o) == Settled(AfterReply(t, PageArrives(s.home, p, s.index, HomeFds(s.home.me))))
      && (forall m: nat :: IsNode(m) ==> Silent(t, m) && (m != n ==> CopyOk(t, m)))
      && (n != s.home.me ==> s.home.status == EMPTY)
  {
    var o := s.home.dir.owner;
    var t := Taken(s, o);
    assert s.toHome[o] == [PagePacket(s.index, o, s.latest)];
    assert t.toHome[o] == [];
    forall m: nat | IsNode(m) && m != n
      ensures Silent(t, m) && CopyOk(t, m)
    {
      assert m != o ==> Silent(s, m) && CopyOk(s, m);
    }
    assert Silent(s, n);
    assert n != s.home.me ==> CopyOk(t, s.home.me);
  }

  /** A write: the owner is told to drop its copy, and the page it sent waits in the slot. */
  lemma FetchedForWrite(s: Sys, n: nat)
    requires Coherent(s) && s.txn == Serving(n, true) && Fetching(s, n, true) && s.toHome[s.home.dir.owner] != []
    ensures var t := HomeStep(s, s.home.dir.owner);
      Coherent(t) && Backed(t) && ServingSafely(t) && Collecting(t, n) && t.txn == s.txn && t.home.pending.payload == s.latest
      && t.home.pending.expectedAcks == 1
  {
    PageInHand(s, n, true);
    var o, me := s.home.dir.owner, s.home.me;
    var t, p := Taken(s, o), PagePacket(s.index, o, s.latest);
    HoldersConnected(s.home.dir, me, n);
    assert o in InvalidateSet(s.home.dir, n) - {me};
    assert InvalidateSet(s.home.dir, n) - {me} == {o};
    var c := if n == me then -1 else n;
    CollectingStarts(t, n, c, s.latest, AfterReply(t, StartCollecting(s.home, n, c, s.latest, s.index, HomeFds(me))));
  }

  /** A read: the page is installed here, or forwarded without keeping a copy. */
  lemma FetchedForRead(s: Sys, n: nat)
    requires Coherent(s) && s.txn == Serving(n, false) && Fetching(s, n, false) && s.toHome[s.home.dir.owner] != []
    ensures var t := HomeStep(s, s.home.dir.owner);
      && Coherent(t) && t.home.dir == ToShared(s.home.dir, n) && t.latest == s.latest && t.home.me == s.home.me
      && (n == s.home.me ==> AtRest(t) && t.txn == Idle)
      && (n != s.home.me ==> Granting(t, n, false) && t.txn == s.txn)
    ensures Backed(HomeStep(s, s.home.dir.owner)) <==> n == s.home.me || s.latest == ZeroPage()
  {
    PageInHand(s, n, false);
    var o, me := s.home.dir.owner, s.home.me;
    var t, p := Taken(s, o), PagePacket(s.index, o, s.latest);
    var d := ToShared(s.home.dir, n);
    if n == me {
      var u := HomeStep(s, o);
      assert u.toNode == s.toNode;
      forall m: nat | IsNode(m)
        ensures Silent(u, m) && CopyOk(u, m)
      {
        assert Silent(t, m) && (m != n ==> CopyOk(t, m));
      }
    } else {
      var v := t.(home := s.home.(dir := d, pending := s.home.pending.(requester := 0)));
      forall m: nat | IsNode(m) && m != n
        ensures Silent(v, m) && CopyOk(v, m)
      {
        assert Silent(t, m) && CopyOk(t, m);
      }
      GrantingStarts(v, n, false, p, HomeStep(s, o));
    }
  }

  // ---- Collecting acknowledgements ----

  lemma OwingShrinks(s: Sys, t: Sys, m: nat)
    requires Shape(s) && Shape(t) && m < WIDTH
    requires forall k: nat | k < WIDTH && k != m :: Owes(t, k) == Owes(s, k)
    ensures Owing(t) == if Owes(t, m) then Owing(s) + {m} else Owing(s) - {m}
  {
  }

  /** A holder drops its copy; the bytes in the slot stay. */
  lemma DropKeeps(s: Sys, n: nat, m: nat)
    requires Inv(s) && s.txn == Serving(n, true) && Collecting(s, n) && IsNode(m) && m != s.home.me && s.toNode[m] != []
    ensures Inv(NodeStep(s, m)) && NodeStep(s, m).home == s.home && NodeStep(s, m).txn == s.txn
    ensures Collecting(NodeStep(s, m), n)
  {
    assert Silent(s, n);
    assert Dropping(s, m);
    var t := NodeStep(s, m);
    assert t.toNode[m] == [] && t.toHome[m] == [Packet(INVALIDATE_ACK, s.index, m, ZeroPage())];
    OwingShrinks(s, t, m);
    assert Owing(t) == Owing(s);
    forall k: nat | IsNode(k) && k != n
      ensures Dropping(t, k)
    {
      assert Dropping(s, k);
    }
    assert Silent(s, s.home.me);
  }

  /** With the acknowledgement in hand. */
  lemma AckInHand(s: Sys, n: nat, m: nat)
    requires Inv(s) && s.txn == Serving(n, true) && Collecting(s, n) && IsNode(m) && m != s.home.me && s.toHome[m] != []
    ensures var t := Taken(s, m);
      && m != n && HomeStep(s, m) == Settled(AfterReply(t, AckArrives(s.home, s.index)))
      && StatusOf(s, m) == EMPTY && Silent(t, m)
      && |Owing(t)| == s.home.pending.expectedAcks - 1
      && (forall k: nat :: IsNode(k) && k != n ==> Dropping(t, k))
  {
    assert Silent(s, n);
    assert Dropping(s, m);
    var t := Taken(s, m);
    assert t.toHome[m] == [];
    OwingShrinks(s, t, m);
    assert m in Owing(s);
    forall k: nat | IsNode(k) && k != n
      ensures Dropping(t, k)
    {
      assert Dropping(s, k);
    }
  }

  lemma CountAckKeeps(s: Sys, n: nat, m: nat)
    requires Inv(s) && s.txn == Serving(n, true) && Collecting(s, n) && IsNode(m) && m != s.home.me && s.toHome[m] != []
    requires s.home.pending.expectedAcks > 1
    ensures Inv(HomeStep(s, m)) && HomeStep(s, m).home.pending.payload == s.home.pending.payload && HomeStep(s, m).txn == s.txn
    ensures Collecting(HomeStep(s, m), n)
  {
    AckInHand(s, n, m);
    var t, u := Taken(s, m), HomeStep(s, m);
    assert u.toNode == s.toNode;
    assert Owing(u) == Owing(t);
    assert Silent(s, n) && Silent(s, s.home.me);
    forall k: nat | IsNode(k) && k != n
      ensures Dropping(u, k)
    {
      assert Dropping(t, k);
    }
  }

  /** With the last acknowledgement in hand, nothing is in flight and only the writer may have a copy. */
  lemma LastAckInHand(s: Sys, n: nat, m: nat)
    requires Inv(s) && s.txn == Serving(n, true) && Collecting(s, n) && IsNode(m) && m != s.home.me && s.toHome[m] != []
    requires s.home.pending.expectedAcks == 1
    ensures var t := Taken(s, m);
      && HomeStep(s, m) == Settled(AfterReply(t, AckArrives(s.home, s.index)))
      && forall k: nat :: IsNode(k) ==> Silent(t, k) && (k != n ==> StatusOf(t, k) == EMPTY && CopyOk(t, k))
  {
    AckInHand(s, n, m);
    var t := Taken(s, m);
    assert Owing(t) == {};
    assert Silent(s, n) && Silent(s, s.home.me);
    forall k: nat | IsNode(k)
      ensures Silent(t, k) && (k != n ==> StatusOf(t, k) == EMPTY && CopyOk(t, k))
    {
      assert k !in Owing(t);
      assert k != n ==> Dropping(t, k);
    }
  }

  /** The home node's own write is over. */
  lemma LastAckAtHome(s: Sys, n: nat, m: nat)
    requires Inv(s) && s.txn == Serving(n, true) && Collecting(s, n) && IsNode(m) && m != s.home.me && s.toHome[m] != []
    requires s.home.pending.expectedAcks == 1 && n == s.home.me
    ensures Inv(HomeStep(s, m)) && HomeStep(s, m).txn == Idle && Owns(HomeStep(s, m), n)
    ensures forall k: nat :: IsNode(k) && k != n ==> StatusOf(HomeStep(s, m), k) == EMPTY
    ensures AckArrives(s.home, s.index).sent == [] && HomeStep(s, m).home.page == s.latest
  {
    LastAckInHand(s, n, m);
    var t, u := Taken(s, m), HomeStep(s, m);
    assert u.toNode == s.toNode;
    forall k: nat | IsNode(k)
      ensures Silent(u, k) && CopyOk(u, k)
    {
      assert Silent(t, k) && (k != n ==> CopyOk(t, k));
    }
  }

  /** The page goes to the worker that writes. */
  lemma LastAckGrants(s: Sys, n: nat, m: nat)
    requires Inv(s) && s.txn == Serving(n, true) && Collecting(s, n) && IsNode(m) && m != s.home.me && s.toHome[m] != []
    requires s.home.pending.expectedAcks == 1 && n != s.home.me
    ensures Inv(HomeStep(s, m)) && Granting(HomeStep(s, m), n, true) && HomeStep(s, m).txn == s.txn
    ensures forall k: nat :: IsNode(k) && k != n ==> StatusOf(HomeStep(s, m), k) == EMPTY
    ensures AckArrives(s.home, s.index).sent == [Sent(n, PagePacket(s.index, s.home.me, s.latest))]
  {
    LastAckInHand(s, n, m);
    var t := Taken(s, m);
    var v := t.(home := AckArrives(s.home, s.index).home);
    forall k: nat | IsNode(k)
      ensures Silent(v, k) && (k != n ==> CopyOk(v, k))
    {
      assert Silent(t, k) && (k != n ==> CopyOk(t, k));
    }
    GrantingStarts(v, n, true, PagePacket(s.index, s.home.me, s.home.pending.payload), HomeStep(s, m));
  }

  /** The last acknowledgement: every other copy is gone, and the latest value goes to the writer. */
  lemma LastAckKeeps(s: Sys, n: nat, m: nat)
    requires Inv(s) && s.txn == Serving(n, true) && Collecting(s, n) && IsNode(m) && m != s.home.me && s.toHome[m] != []
    requires s.home.pending.expectedAcks == 1
    ensures Inv(HomeStep(s, m))
    ensures forall k: nat :: IsNode(k) && k != n ==> StatusOf(HomeStep(s, m), k) == EMPTY
    ensures n == s.home.me ==>
              && AckArrives(s.home, s.index).sent == []
              && HomeStep(s, m).home.page == s.latest && HomeStep(s, m).txn == Idle && Owns(HomeStep(s, m), n)
    ensures n != s.home.me ==>
              && AckArrives(s.home, s.index).sent == [Sent(n, PagePacket(s.index, s.home.me, s.latest))]
              && Granting(HomeStep(s, m), n, true) && HomeStep(s, m).txn == s.txn
  {
    if n == s.home.me {
      LastAckAtHome(s, n, m);
    } else {
      LastAckGrants(s, n, m);
    }
  }

  // ---- The grant arrives ----

  /** The faulting worker has its page: it is the latest value, whether it was installed or already there. */
  lemma GrantArrives(s: Sys, n: nat, isWrite: bool)
    requires Coherent(s) && s.txn == Serving(n, isWrite) && Granting(s, n, isWrite)
    ensures var t := NodeStep(s, n);
      && Coherent(t) && t.txn == Idle && t.home == s.home && t.latest == s.latest
      && StatusOf(t, n) == VALID && PageOf(t, n) == s.latest
      && s.toNode[n][0].payload == PageOf(t, n)
  {
    var t := NodeStep(s, n);
    assert t.toNode[n] == [];
    forall m: nat | IsNode(m)
      ensures Silent(t, m) && CopyOk(t, m)
    {
      assert m != n ==> Silent(s, m) && CopyOk(s, m);
    }
  }
}
