/** The inductive invariant of the coherence protocol and its preservation by every step. */
module ProtocolInvariant {
  import opened Wire
  import opened Bitmap
  import opened Directory
  import opened SequencerSpec
  import opened Channels
  import opened PageStatus
  import opened Protocol

  // ---- The invariant ----

  predicate DownShape(d: seq<nat>) {
    d == [] || d == [SEND_PAGE] || d == [INVALIDATE] || d == [SEND_PAGE, INVALIDATE]
  }

  predicate UpShape(u: seq<nat>, want: nat) {
    || u == []
    || u == [INVALIDATE_ACK]
    || ((want == READ || want == WRITE)
        && (u == [want] || u == [want, INVALIDATE_ACK] || u == [INVALIDATE_ACK, want]))
  }

  predicate WorkerOk(w: Worker) {
    && (w.want == 0 || w.want == READ || w.want == WRITE)
    && (w.writable ==> w.status == VALID)
    && (w.status == VALID ==> w.want == 0)
    && (w.want == 0 ==> w.status == VALID || w.status == EMPTY)
    && (w.want == READ ==> !Resident(w.status))
  }

  function Count(b: bool): nat {
    if b then 1 else 0
  }

  /** In how many places node n's request is: on its way, in the coordinator's hand, deferred, active, or
      answered by a grant on its way back. */
  function Places(s: Sys, n: nat, hand: nat): nat
    requires Shape(s) && n < WIDTH
  {
    Count(RequestFrom(s, n)) + Count(hand == n) + Count(Queued(s, n)) + Count(Active(s, n)) + Count(GrantTo(s, n))
  }

  predicate ChannelsOk(s: Sys, n: nat)
    requires Shape(s) && n < WIDTH
  {
    && DownShape(s.down[n])
    && UpShape(s.up[n], s.workers[n].want)
    && !(InvalidateTo(s, n) && AckFrom(s, n))
    && WorkerOk(s.workers[n])
  }

  /** The directory covers every copy. */
  predicate Covered(s: Sys, n: nat)
    requires Shape(s) && n < WIDTH
  {
    && (Live(s, n) && !InvalidateTo(s, n) ==> n in Holders(s.dir))
    && (LiveWriter(s, n) && !InvalidateTo(s, n) ==> s.dir == ToModified(s.dir, n))
    && (s.dir == ToModified(s.dir, n) && !Active(s, n) ==> LiveWriter(s, n) && !InvalidateTo(s, n))
  }

  predicate NodeOk(s: Sys, n: nat, hand: nat)
    requires Shape(s) && n < WIDTH
  {
    && ChannelsOk(s, n)
    && Places(s, n, hand) == Count(s.workers[n].want != 0)
    && Covered(s, n)
  }

  predicate QueueOk(s: Sys)
    requires Shape(s)
  {
    && (forall i :: 0 <= i < |s.rec.deferred| ==>
          && IsNode(s.rec.deferred[i].node)
          && s.rec.deferred[i] == RequestOf(s.page, s.rec.deferred[i].node, s.workers[s.rec.deferred[i].node].want))
    && (forall i, j :: 0 <= i < j < |s.rec.deferred| ==> s.rec.deferred[i].node != s.rec.deferred[j].node)
  }

  predicate RecordOk(s: Sys, hand: nat)
    requires Shape(s)
  {
    && WellFormed(s.dir)
    && (s.rec.active <==> s.rec.expectedAcks > 0)
    && s.rec.expectedAcks == |Owing(s)|
    && (!s.rec.active ==> s.rec.activeNode == 0)
    && (s.rec.active ==>
          && IsNode(s.rec.activeNode)
          && s.rec.activeNode !in Owing(s)
          && (s.workers[s.rec.activeNode].want == WRITE ==> s.dir == ToModified(s.dir, s.rec.activeNode))
          && (s.workers[s.rec.activeNode].want == READ ==> s.dir.state == SHARED && s.rec.activeNode in s.dir.sharers))
    && (hand != 0 ==> IsNode(hand))
  }

  /** Single writer or many readers. */
  ghost predicate SingleWriter(s: Sys)
    requires Shape(s)
  {
    forall a, b {:trigger LiveWriter(s, a), Live(s, b)} :: IsNode(a) && IsNode(b) && a != b && LiveWriter(s, a) ==> !Live(s, b)
  }

  /** `hand` is the node whose request the coordinator has taken off a connection or off its queue and is
      about to execute, 0 when there is none. */
  ghost predicate InvWith(s: Sys, hand: nat) {
    && Shape(s)
    && s.up[0] == [] && s.down[0] == []
    && QueueOk(s)
    && RecordOk(s, hand)
    && (forall n {:trigger NodeOk(s, n, hand)} :: IsNode(n) ==> NodeOk(s, n, hand))
    && SingleWriter(s)
  }

  ghost predicate Inv(s: Sys) {
    InvWith(s, 0)
  }

  lemma InitHolds(page: nat)
    ensures Inv(Init(page))
  {
    assert Owing(Init(page)) == {};
  }

  // ---- Steps that change one node only ----

  /** Only node n's worker and connections differ. */
  ghost predicate Local(s: Sys, t: Sys, n: nat) {
    && Shape(s) && Shape(t) && IsNode(n)
    && t.page == s.page && t.rec == s.rec && t.dir == s.dir
    && t.workers == s.workers[n := t.workers[n]]
    && t.up == s.up[n := t.up[n]]
    && t.down == s.down[n := t.down[n]]
  }

  lemma LocalFrame(s: Sys, t: Sys, n: nat, m: nat, hand: nat, hand': nat)
    requires Local(s, t, n) && IsNode(m) && m != n
    requires NodeOk(s, m, hand) && (hand == m <==> hand' == m)
    ensures NodeOk(t, m, hand')
    ensures Live(t, m) == Live(s, m) && LiveWriter(t, m) == LiveWriter(s, m)
  {
    assert t.workers[m] == s.workers[m] && t.up[m] == s.up[m] && t.down[m] == s.down[m];
    assert Queued(t, m) == Queued(s, m);
  }

  lemma LocalOwing(s: Sys, t: Sys, n: nat)
    requires Local(s, t, n)
    requires (InvalidateTo(t, n) || AckFrom(t, n)) == (InvalidateTo(s, n) || AckFrom(s, n))
    ensures Owing(t) == Owing(s)
  {
    forall m: nat | m < WIDTH && m != n
      ensures t.up[m] == s.up[m] && t.down[m] == s.down[m]
    {
    }
  }

  lemma LocalSingleWriter(s: Sys, t: Sys, n: nat)
    requires Local(s, t, n) && SingleWriter(s)
    requires Live(t, n) ==> Live(s, n)
    requires LiveWriter(t, n) ==> LiveWriter(s, n)
    ensures SingleWriter(t)
  {
    forall a: nat, b: nat | IsNode(a) && IsNode(b) && a != b && LiveWriter(t, a)
      ensures !Live(t, b)
    {
      assert a != n ==> t.workers[a] == s.workers[a] && t.down[a] == s.down[a];
      assert b != n ==> t.workers[b] == s.workers[b] && t.down[b] == s.down[b];
      assert LiveWriter(s, a);
      assert !Live(s, b);
    }
  }

  lemma LocalRecord(s: Sys, t: Sys, n: nat, hand: nat, hand': nat)
    requires Local(s, t, n) && RecordOk(s, hand) && QueueOk(s)
    requires Owing(t) == Owing(s)
    requires Queued(s, n) || Active(s, n) ==> t.workers[n].want == s.workers[n].want
    requires hand' == hand || hand' == n
    ensures RecordOk(t, hand') && QueueOk(t)
  {
    forall i | 0 <= i < |t.rec.deferred|
      ensures t.rec.deferred[i] == RequestOf(t.page, t.rec.deferred[i].node, t.workers[t.rec.deferred[i].node].want)
    {
      assert IsNode(s.rec.deferred[i].node);
      if s.rec.deferred[i].node == n {
        assert Queued(s, n);
      }
    }
  }

  lemma LocalKeeps(s: Sys, t: Sys, n: nat, hand: nat, hand': nat)
    requires InvWith(s, hand) && Local(s, t, n)
    requires hand' == hand || (hand == 0 && hand' == n)
    requires NodeOk(t, n, hand')
    requires (InvalidateTo(t, n) || AckFrom(t, n)) == (InvalidateTo(s, n) || AckFrom(s, n))
    requires Queued(s, n) || Active(s, n) ==> t.workers[n].want == s.workers[n].want
    requires Live(t, n) ==> Live(s, n)
    requires LiveWriter(t, n) ==> LiveWriter(s, n)
    ensures InvWith(t, hand')
  {
    LocalOwing(s, t, n);
    LocalSingleWriter(s, t, n);
    LocalRecord(s, t, n, hand, hand');
    forall m | IsNode(m)
      ensures NodeOk(t, m, hand')
    {
      if m != n {
        assert NodeOk(s, m, hand);
        LocalFrame(s, t, n, m, hand, hand');
      }
    }
  }

  // ---- A node faults ----

  lemma IssueKeeps(s: Sys, n: nat, kind: nat)
    requires Inv(s) && IsNode(n) && MayIssue(s.workers[n], kind)
    ensures Inv(IssueStep(s, n, kind))
  {
    var t := IssueStep(s, n, kind);
    assert NodeOk(s, n, 0);
    assert s.up[n] == [] || s.up[n] == [INVALIDATE_ACK];
    assert t.up[n] == [kind] || t.up[n] == [INVALIDATE_ACK, kind];
    assert Queued(t, n) == Queued(s, n);
    assert NodeOk(t, n, 0);
    LocalKeeps(s, t, n, 0, 0);
  }

  // ---- A message reaches a node ----

  lemma GrantKeeps(s: Sys, n: nat)
    requires Inv(s) && IsNode(n) && s.down[n] != [] && s.down[n][0] == SEND_PAGE
    ensures Inv(NodeStep(s, n))
  {
    var t := NodeStep(s, n);
    assert NodeOk(s, n, 0);
    assert s.down[n] == [SEND_PAGE] + t.down[n];
    assert t.down[n] == [] || t.down[n] == [INVALIDATE];
    assert Queued(t, n) == Queued(s, n);
    assert NodeOk(t, n, 0);
    LocalKeeps(s, t, n, 0, 0);
  }

  lemma InvalidateKeeps(s: Sys, n: nat)
    requires Inv(s) && IsNode(n) && s.down[n] != [] && s.down[n][0] == INVALIDATE
    ensures Inv(NodeStep(s, n))
  {
    var t := NodeStep(s, n);
    assert NodeOk(s, n, 0);
    assert s.down[n] == [INVALIDATE];
    assert t.down[n] == [];
    assert t.up[n] == s.up[n] + [INVALIDATE_ACK];
    assert s.up[n] == [] || s.up[n] == [s.workers[n].want];
    assert Queued(t, n) == Queued(s, n);
    assert NodeOk(t, n, 0);
    LocalKeeps(s, t, n, 0, 0);
  }

  // ---- A request reaches the coordinator ----

  /** The request moves from the connection into the coordinator's hand. */
  lemma TakeRequestKeeps(s: Sys, n: nat)
    requires Inv(s) && IsNode(n) && s.up[n] != [] && s.up[n][0] != INVALIDATE_ACK
    ensures InvWith(TakeUp(s, n), n)
    ensures s.up[n][0] == s.workers[n].want
  {
    var t := TakeUp(s, n);
    assert NodeOk(s, n, 0);
    assert t.up[n] == [] || t.up[n] == [INVALIDATE_ACK];
    assert Queued(t, n) == Queued(s, n);
    assert NodeOk(t, n, n);
    LocalKeeps(s, t, n, 0, n);
  }

  /** The record of s with a different deferred queue. */
  function WithQueue(s: Sys, queue: seq<Request>): Sys {
    s.(rec := s.rec.(deferred := queue))
  }

  /** Only what nodes hold or are about to hold matters to SingleWriter. */
  lemma SameHolders(s: Sys, t: Sys)
    requires Shape(s) && Shape(t) && SingleWriter(s)
    requires forall m: nat | IsNode(m) :: Live(t, m) == Live(s, m) && LiveWriter(t, m) == LiveWriter(s, m)
    ensures SingleWriter(t)
  {
    forall a: nat, b: nat | IsNode(a) && IsNode(b) && a != b && LiveWriter(t, a)
      ensures !Live(t, b)
    {
      assert LiveWriter(s, a) && !Live(s, b);
    }
  }

  /** A node is as well off after its request has moved between the hand and the queue as before. */
  lemma QueueFrame(s: Sys, queue: seq<Request>, m: nat, hand: nat, hand': nat)
    requires Shape(s) && IsNode(m) && NodeOk(s, m, hand)
    requires var t := WithQueue(s, queue);
      Count(hand == m) + Count(Queued(s, m)) == Count(hand' == m) + Count(Queued(t, m))
    ensures NodeOk(WithQueue(s, queue), m, hand')
  {
  }

  lemma QueuedAppend(s: Sys, q: Request, m: nat)
    ensures Queued(WithQueue(s, s.rec.deferred + [q]), m) <==> Queued(s, m) || q.node == m
  {
    var t := WithQueue(s, s.rec.deferred + [q]);
    assert t.rec.deferred[|s.rec.deferred|] == q;
    if Queued(s, m) {
      var i :| 0 <= i < |s.rec.deferred| && s.rec.deferred[i].node == m;
      assert t.rec.deferred[i].node == m;
    }
  }

  lemma QueuedPop(s: Sys, m: nat)
    requires s.rec.deferred != []
    ensures Queued(s, m) <==> Queued(WithQueue(s, s.rec.deferred[1..]), m) || s.rec.deferred[0].node == m
  {
    var t := WithQueue(s, s.rec.deferred[1..]);
    if Queued(t, m) {
      var i :| 0 <= i < |t.rec.deferred| && t.rec.deferred[i].node == m;
      assert s.rec.deferred[i + 1].node == m;
    }
    if i :| 0 < i < |s.rec.deferred| && s.rec.deferred[i].node == m {
      assert t.rec.deferred[i - 1].node == m;
    }
  }

  /** What else the invariant says, apart from the queue and the nodes. */
  lemma QueueChangeKeeps(s: Sys, queue: seq<Request>, hand: nat, hand': nat)
    requires InvWith(s, hand) && (hand' != 0 ==> IsNode(hand'))
    requires var t := WithQueue(s, queue);
      QueueOk(t) && forall m {:trigger NodeOk(t, m, hand')} :: IsNode(m) ==> NodeOk(t, m, hand')
    ensures InvWith(WithQueue(s, queue), hand')
  {
    var t := WithQueue(s, queue);
    assert Owing(t) == Owing(s);
    SameHolders(s, t);
  }

  /** From the hand into the deferred queue. */
  lemma DeferKeeps(s: Sys, n: nat)
    requires InvWith(s, n) && IsNode(n) && s.rec.active
    ensures Inv(WithQueue(s, s.rec.deferred + [RequestOf(s.page, n, s.workers[n].want)]))
  {
    var q := RequestOf(s.page, n, s.workers[n].want);
    var queue := s.rec.deferred + [q];
    assert NodeOk(s, n, n);
    assert !Queued(s, n);
    forall m | IsNode(m)
      ensures NodeOk(WithQueue(s, queue), m, 0)
    {
      assert NodeOk(s, m, n);
      QueuedAppend(s, q, m);
      QueueFrame(s, queue, m, n, 0);
    }
    QueueChangeKeeps(s, queue, n, 0);
  }

  /** From the head of the deferred queue into the hand. */
  lemma PopKeeps(s: Sys)
    requires Inv(s) && !s.rec.active && s.rec.deferred != []
    ensures InvWith(WithQueue(s, s.rec.deferred[1..]), s.rec.deferred[0].node)
  {
    var n, queue := s.rec.deferred[0].node, s.rec.deferred[1..];
    assert !Queued(WithQueue(s, queue), n);
    forall m | IsNode(m)
      ensures NodeOk(WithQueue(s, queue), m, n)
    {
      assert NodeOk(s, m, 0);
      QueuedPop(s, m);
      QueueFrame(s, queue, m, 0, n);
    }
    QueueChangeKeeps(s, queue, 0, n);
  }

  // ---- A transaction starts ----

  /** What is true of every node when the coordinator executes a request: no invalidation is anywhere,
      the holders are exactly covered, and the requester has nothing but its request. */
  lemma Quiet(s: Sys, n: nat, m: nat)
    requires InvWith(s, n) && IsNode(n) && !s.rec.active && IsNode(m)
    ensures !InvalidateTo(s, m) && !AckFrom(s, m)
    ensures Owing(s) == {}
    ensures Live(s, m) ==> m in Holders(s.dir)
    ensures LiveWriter(s, m) ==> Live(s, m) && s.dir == ToModified(s.dir, m)
    ensures s.down[m] == [] || (m != n && s.down[m] == [SEND_PAGE])
    ensures s.dir.state == MODIFIED && s.dir.owner == m ==> m != n && LiveWriter(s, m)
    ensures s.workers[n].want != 0 && !s.workers[n].writable && !Queued(s, n)
  {
    assert |Owing(s)| == 0;
    assert m !in Owing(s);
    assert NodeOk(s, m, n);
    assert NodeOk(s, n, n);
  }

  /** A read is granted at once, or a write with nobody to invalidate. */
  lemma GrantAtOnceKeeps(s: Sys, t: Sys, n: nat, d: Dir)
    requires InvWith(s, n) && IsNode(n) && !s.rec.active
    requires t == s.(dir := d, down := s.down[n := s.down[n] + [SEND_PAGE]])
    requires (s.workers[n].want == WRITE && d == ToModified(s.dir, n) && Holders(s.dir) <= {n})
          || (s.workers[n].want == READ && s.dir.state != MODIFIED && d == ToShared(s.dir, n))
    ensures Inv(t)
  {
    Quiet(s, n, n);
    assert t.down[n] == [SEND_PAGE];
    forall m: nat | m < WIDTH
      ensures InvalidateTo(t, m) == InvalidateTo(s, m) && AckFrom(t, m) == AckFrom(s, m)
    {
    }
    assert Owing(t) == {};
    assert WellFormed(d);
    forall m: nat | IsNode(m)
      ensures NodeOk(t, m, 0)
      ensures m != n ==> !LiveWriter(t, m)
      ensures m != n && s.workers[n].want == WRITE ==> !Live(t, m)
      ensures LiveWriter(t, n) ==> s.workers[n].want == WRITE
    {
      assert NodeOk(s, m, n);
      Quiet(s, n, m);
      assert Queued(t, m) == Queued(s, m);
    }
  }

  /** A write with holders to invalidate. */
  lemma BroadcastKeeps(s: Sys, t: Sys, n: nat)
    requires InvWith(s, n) && IsNode(n) && !s.rec.active
    requires s.workers[n].want == WRITE
    requires var targets := InvalidateSet(s.dir, n);
      && targets != {}
      && |t.down| == WIDTH
      && t == s.(rec := s.rec.(active := true, activeNode := n, expectedAcks := |targets|),
                 dir := ToModified(s.dir, n), down := t.down)
      && forall m :: 0 <= m < WIDTH ==> t.down[m] == if m in targets then s.down[m] + [INVALIDATE] else s.down[m]
    ensures Inv(t)
  {
    var targets := InvalidateSet(s.dir, n);
    forall m: nat | m < WIDTH
      ensures m in Owing(t) <==> m in targets
    {
      if m != 0 {
        Quiet(s, n, m);
      }
    }
    assert Owing(t) == targets;
    forall m: nat | IsNode(m)
      ensures NodeOk(t, m, 0)
      ensures Live(t, m) == Live(s, m) && LiveWriter(t, m) == LiveWriter(s, m)
    {
      assert NodeOk(s, m, n);
      Quiet(s, n, m);
      assert Queued(t, m) == Queued(s, m);
    }
    SameHolders(s, t);
  }

  /** A read of a page another node may write. */
  lemma FetchKeeps(s: Sys, t: Sys, n: nat)
    requires InvWith(s, n) && IsNode(n) && !s.rec.active
    requires s.workers[n].want == READ && s.dir.owner != 0 && s.dir.owner != n
    requires var o := s.dir.owner;
      t == s.(rec := s.rec.(active := true, activeNode := n, expectedAcks := 1),
              dir := ToShared(s.dir, n), down := s.down[o := s.down[o] + [INVALIDATE]])
    ensures Inv(t)
  {
    var o := s.dir.owner;
    forall m: nat | m < WIDTH
      ensures m in Owing(t) <==> m == o
    {
      if m != 0 {
        Quiet(s, n, m);
      }
    }
    assert Owing(t) == {o};
    forall m: nat | IsNode(m)
      ensures NodeOk(t, m, 0)
      ensures Live(t, m) == Live(s, m) && LiveWriter(t, m) == LiveWriter(s, m)
    {
      assert NodeOk(s, m, n);
      Quiet(s, n, m);
      assert Queued(t, m) == Queued(s, m);
    }
    SameHolders(s, t);
  }

  lemma ExecuteBroadcasts(s: Sys, n: nat, q: Request)
    requires InvWith(s, n) && IsNode(n) && !s.rec.active
    requires q == RequestOf(s.page, n, WRITE) && s.workers[n].want == WRITE && InvalidateSet(s.dir, n) != {}
    ensures Inv(Outgoing(s, Execute(s.rec, s.dir, q, NodeFds())))
  {
    DeliverBroadcast(s.down, InvalidateSet(s.dir, n), InvalidatePacket(s.page, 0), NodeFds(), 0, Code);
    BroadcastKeeps(s, Outgoing(s, Execute(s.rec, s.dir, q, NodeFds())), n);
  }

  lemma ExecuteFetches(s: Sys, n: nat, q: Request)
    requires InvWith(s, n) && IsNode(n) && !s.rec.active
    requires q == RequestOf(s.page, n, READ) && s.workers[n].want == READ && s.dir.owner != 0 && s.dir.owner != n
    ensures Inv(Outgoing(s, Execute(s.rec, s.dir, q, NodeFds())))
  {
    DeliverOne(s.down, s.dir.owner, InvalidatePacket(s.page, n), Code);
    FetchKeeps(s, Outgoing(s, Execute(s.rec, s.dir, q, NodeFds())), n);
  }

  lemma ExecuteGrantsAtOnce(s: Sys, n: nat, q: Request)
    requires InvWith(s, n) && IsNode(n) && !s.rec.active
    requires q == RequestOf(s.page, n, s.workers[n].want)
    requires (q.kind == WRITE && InvalidateSet(s.dir, n) == {}) || (q.kind == READ && s.dir.owner == 0)
    ensures Inv(Outgoing(s, Execute(s.rec, s.dir, q, NodeFds())))
  {
    var o := Execute(s.rec, s.dir, q, NodeFds());
    DeliverOne(s.down, n, Grant(s.page), Code);
    assert Holders(s.dir) <= {n} || q.kind == READ;
    GrantAtOnceKeeps(s, Outgoing(s, o), n, o.dir);
  }

  /** Executing the request in hand: the READ shortcut for a requester that is itself the owner is never taken. */
  lemma ExecuteKeeps(s: Sys, n: nat)
    requires InvWith(s, n) && IsNode(n) && !s.rec.active
    ensures Inv(Outgoing(s, Execute(s.rec, s.dir, RequestOf(s.page, n, s.workers[n].want), NodeFds())))
    ensures s.workers[n].want == READ ==> s.dir.owner != n
  {
    var q := RequestOf(s.page, n, s.workers[n].want);
    Quiet(s, n, n);
    assert NodeOk(s, n, n);
    if q.kind == WRITE && InvalidateSet(s.dir, n) != {} {
      ExecuteBroadcasts(s, n, q);
    } else if q.kind == READ && s.dir.owner != 0 {
      ExecuteFetches(s, n, q);
    } else {
      ExecuteGrantsAtOnce(s, n, q);
    }
  }

  // ---- An acknowledgement reaches the coordinator ----

  lemma AckOwing(s: Sys, n: nat)
    requires Inv(s) && IsNode(n) && s.up[n] != [] && s.up[n][0] == INVALIDATE_ACK
    ensures var t := TakeUp(s, n);
      && Owing(t) == Owing(s) - {n} && n in Owing(s)
      && ChannelsOk(t, n) && !InvalidateTo(t, n) && RequestFrom(t, n) == RequestFrom(s, n)
    ensures s.rec.active && s.rec.expectedAcks > 0 && s.rec.activeNode != n
  {
    var t := TakeUp(s, n);
    assert NodeOk(s, n, 0);
    assert s.up[n] == [INVALIDATE_ACK] || s.up[n] == [INVALIDATE_ACK, s.workers[n].want];
    assert t.up[n] == [] || t.up[n] == [s.workers[n].want];
    assert n in Owing(s);
    forall m: nat | m < WIDTH && m != n
      ensures t.up[m] == s.up[m] && t.down[m] == s.down[m]
    {
    }
  }

  /** Not the last one. */
  lemma CountAckKeeps(s: Sys, n: nat, t: Sys)
    requires Inv(s) && IsNode(n) && s.up[n] != [] && s.up[n][0] == INVALIDATE_ACK && s.rec.expectedAcks > 1
    requires t == TakeUp(s, n).(rec := s.rec.(expectedAcks := s.rec.expectedAcks - 1))
    ensures Inv(t)
  {
    AckOwing(s, n);
    assert Owing(t) == Owing(TakeUp(s, n));
    forall m: nat | IsNode(m)
      ensures NodeOk(t, m, 0)
      ensures Live(t, m) == Live(s, m) && LiveWriter(t, m) == LiveWriter(s, m)
    {
      assert NodeOk(s, m, 0);
      assert Queued(t, m) == Queued(s, m);
    }
    SameHolders(s, t);
  }

  /** The last one: the active request is granted, and by then every other holder has dropped its copy. */
  lemma CompleteKeeps(s: Sys, n: nat, t: Sys)
    requires Inv(s) && IsNode(n) && s.up[n] != [] && s.up[n][0] == INVALIDATE_ACK && s.rec.expectedAcks == 1
    requires var a := s.rec.activeNode;
      t == TakeUp(s, n).(rec := Completed(s.rec), down := s.down[a := s.down[a] + [SEND_PAGE]])
    ensures Inv(t) && Owing(t) == {}
    ensures forall m: nat | IsNode(m) && m != s.rec.activeNode ::
              !LiveWriter(t, m) && (s.workers[s.rec.activeNode].want == WRITE ==> !Live(t, m))
  {
    var a := s.rec.activeNode;
    AckOwing(s, n);
    assert |Owing(TakeUp(s, n))| == 0;
    assert NodeOk(s, a, 0);
    assert s.down[a] == [];
    assert t.down[a] == [SEND_PAGE];
    forall m: nat | m < WIDTH
      ensures !InvalidateTo(t, m) && !AckFrom(t, m)
    {
      assert m !in Owing(TakeUp(s, n));
    }
    assert Owing(t) == {};
    forall m: nat | IsNode(m)
      ensures NodeOk(t, m, 0)
      ensures m != a ==> !LiveWriter(t, m)
      ensures m != a && s.workers[a].want == WRITE ==> !Live(t, m)
      ensures LiveWriter(t, a) ==> s.workers[a].want == WRITE
    {
      assert NodeOk(s, m, 0);
      assert Queued(t, m) == Queued(s, m);
    }
  }
}
