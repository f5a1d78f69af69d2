/** Whole transactions of the live path, from the fault to the granted page: each one ends after a bounded
    number of deliveries, whatever their order, and sends the page exactly once. */
module HomeTransactions {
  import opened Wire
  import opened Bitmap
  import opened Directory
  import opened PageStatus
  import opened HomeSpec
  import opened HomeRuns
  import opened HomeProofs
  import opened HomeTheorems
  import SequencerSpec

  predicate Delivery(st: Step) {
    st.HomeReceives? || st.NodeReceives?
  }

  // ---- What the home node sends ----

  /** The packets the home node sends in a step. */
  function SentIn(s: Sys, st: Step): seq<Sent>
    requires Enabled(s, st)
  {
    match st
    case HomeReceives(m) => HomeReply(s, m, s.toHome[m][0]).sent
    case Fault(n, isWrite) =>
      if n == s.home.me
      then LocalRequest(s.home.(status := Faulted(s.home.status, isWrite)), isWrite, s.index, HomeFds(n)).sent
      else []
    case Leftover(n, isWrite) => LocalRequest(s.home, isWrite, s.index, HomeFds(n)).sent
    case _ => []
  }

  function Pages(sent: seq<Sent>): seq<Sent> {
    if sent == [] then []
    else (if sent[0].packet.kind == SEND_PAGE then [sent[0]] else []) + Pages(sent[1..])
  }

  /** The SEND_PAGE packets of a run, in order. */
  function PagesSent(s: Sys, steps: seq<Step>): seq<Sent>
    requires Runs(s, steps)
    decreases |steps|
  {
    if steps == [] then [] else Pages(SentIn(s, steps[0])) + PagesSent(Next(s, steps[0]), steps[1..])
  }

  predicate OnePage(pages: seq<Sent>, n: nat, value: Page) {
    |pages| == 1 && pages[0].fd == n && pages[0].packet.kind == SEND_PAGE && pages[0].packet.payload == value
  }

  lemma {:induction false} PagesConcat(a: seq<Sent>, b: seq<Sent>)
    requires Pages(a) == []
    ensures Pages(a + b) == Pages(b)
    decreases |a|
  {
    if a == [] {
      assert a + b == b;
    } else {
      assert Pages(a[1..]) == [] && a[0].packet.kind != SEND_PAGE;
      assert (a + b)[0] == a[0] && (a + b)[1..] == a[1..] + b;
      PagesConcat(a[1..], b);
    }
  }

  lemma PagesOfOne(fd: int, p: Packet)
    ensures Pages(Send(fd, p)) == if fd != -1 && p.kind == SEND_PAGE then [Sent(fd, p)] else []
  {
    assert Send(fd, p) == [] || Send(fd, p)[1..] == [];
  }

  lemma {:induction false} BroadcastHasNoPage(targets: set<nat>, p: Packet, fds: seq<int>, i: nat)
    requires i <= WIDTH && |fds| == WIDTH && p.kind != SEND_PAGE
    ensures Pages(SequencerSpec.Broadcast(targets, p, fds, i)) == []
    decreases |fds| - i
  {
    if i < WIDTH {
      BroadcastHasNoPage(targets, p, fds, i + 1);
      var first := if i in targets then Send(fds[i], p) else [];
      PagesOfOne(fds[i], p);
      PagesConcat(first, SequencerSpec.Broadcast(targets, p, fds, i + 1));
    }
  }

  lemma CollectingSendsNoPage(h: Home, writer: nat, fd: int, payload: Page, index: nat, fds: seq<int>)
    requires Sane(h, fds)
    ensures Pages(StartCollecting(h, writer, fd, payload, index, fds).sent) == []
  {
    BroadcastHasNoPage(Connected(InvalidateSet(h.dir, writer) - {h.me}, fds), InvalidatePacket(index), fds, 0);
  }

  // ---- The measure ----

  function Telling(s: Sys): set<nat>
    requires Shape(s)
  {
    set m: nat | m < WIDTH && s.toNode[m] != []
  }

  /** The deliveries a transaction still takes, at most. */
  function Rank(s: Sys): nat
    requires Shape(s) && (s.txn.Serving? ==> s.txn.node < WIDTH)
  {
    if s.txn == Idle then 0
    else if s.home.pending.expectedAcks > 0 then 2 + |Owing(s)| + |Telling(s)|
    else if s.home.pending.requester != 0 then 2 * WIDTH + 3 + (if s.toNode[s.home.dir.owner] != [] then 1 else 0)
    else if s.toNode[s.txn.node] != [] then 1
    else 2 * WIDTH + 5
  }

  lemma RankOfPhase(s: Sys, n: nat, isWrite: bool)
    requires Coherent(s) && s.txn == Serving(n, isWrite)
    ensures Requesting(s, n, isWrite) ==> Rank(s) == 2 * WIDTH + 5
    ensures Fetching(s, n, isWrite) ==> 2 * WIDTH + 3 <= Rank(s) <= 2 * WIDTH + 4
    ensures Collecting(s, n) ==> 2 <= Rank(s) == 2 + |Owing(s)| + |Telling(s)| <= 2 * WIDTH + 2
    ensures Granting(s, n, isWrite) ==> Rank(s) == 1
  {
    CardinalityBelow(Owing(s), WIDTH);
    CardinalityBelow(Telling(s), WIDTH);
  }

  // ---- One delivery ----

  /** The page has yet to be sent to the worker that faulted. */
  predicate PageDue(s: Sys) {
    Shape(s) && s.txn.Serving? && s.txn.node < WIDTH && s.txn.node != s.home.me && s.toNode[s.txn.node] == []
  }

  lemma ReplyKeepsMe(s: Sys, m: nat, p: Packet)
    requires Shape(s) && m < WIDTH
    ensures HomeReply(s, m, p).home.me == s.home.me
  {
  }

  lemma StepFrame(s: Sys, st: Step)
    requires Enabled(s, st) && Delivery(st)
    ensures Next(s, st).home.me == s.home.me && Next(s, st).latest == s.latest
  {
    if st.HomeReceives? {
      ReplyKeepsMe(s, st.node, s.toHome[st.node][0]);
    }
  }

  /** A delivery takes the transaction a step on: the measure drops, and the page leaves if it becomes due no more. */
  ghost predicate Advances(s: Sys, st: Step)
    requires Enabled(s, st)
  {
    var t, pages := Next(s, st), Pages(SentIn(s, st));
    && Inv(t) && t.home.me == s.home.me && t.latest == s.latest
    && (t.txn == s.txn || t.txn == Idle)
    && s.txn.Serving? && s.txn.node < WIDTH && Rank(t) < Rank(s)
    && (if PageDue(s) && !PageDue(t) then t.txn == s.txn && OnePage(pages, s.txn.node, s.latest)
        else pages == [] && (PageDue(t) <==> PageDue(s)))
  }

  /** What is sent for a request in hand when the home node answers it itself. */
  lemma AnswerPages(s: Sys, n: nat, isWrite: bool, value: Page)
    requires Coherent(s) && s.txn == Serving(n, isWrite) && Requesting(s, n, isWrite)
    requires s.home.status != VALID ==> s.home.dir.owner == 0
    requires value == if s.home.status == VALID then s.home.page else ZeroPage()
    ensures var pages := Pages(SentIn(s, HomeReceives(n)));
      if isWrite && NeedsAcks(s.home, n, HomeFds(s.home.me)) then pages == [] else OnePage(pages, n, value)
  {
    var h, fds := s.home, HomeFds(s.home.me);
    PagesOfOne(n, PagePacket(s.index, h.me, value));
    CollectingSendsNoPage(Drop(h), n, n, value, s.index, fds);
    CollectingSendsNoPage(h, n, n, value, s.index, fds);
  }

  lemma PhasesDiffer(t: Sys, n: nat)
    requires Shape(t) && IsNode(n)
    ensures Granting(t, n, true) ==> !Collecting(t, n)
  {
  }

  lemma RequestPages(s: Sys, n: nat, isWrite: bool)
    requires Inv(s) && s.txn == Serving(n, isWrite) && Requesting(s, n, isWrite)
    ensures var t, pages := HomeStep(s, n), Pages(SentIn(s, HomeReceives(n)));
      if Granting(t, n, isWrite) then OnePage(pages, n, s.latest) else pages == []
  {
    var t, me, h := HomeStep(s, n), s.home.me, s.home;
    assert CopyOk(s, me);
    if h.status == VALID {
      ServeFromHome(s, n, isWrite);
      AnswerPages(s, n, isWrite, h.page);
      PhasesDiffer(t, n);
    } else if h.dir.owner == 0 {
      ServeZeros(s, n, isWrite);
      AnswerPages(s, n, isWrite, ZeroPage());
      PhasesDiffer(t, n);
    } else {
      FetchPages(s, n, isWrite);
    }
  }

  lemma FetchPages(s: Sys, n: nat, isWrite: bool)
    requires Inv(s) && s.txn == Serving(n, isWrite) && Requesting(s, n, isWrite)
    requires s.home.status != VALID && s.home.dir.owner != 0
    ensures !Granting(HomeStep(s, n), n, isWrite) && Pages(SentIn(s, HomeReceives(n))) == []
  {
    FetchStarts(s, n, isWrite);
    PagesOfOne(s.home.dir.owner, FetchPacket(s.index, s.home.me));
    assert CopyOk(s, s.home.me);
    assert Silent(HomeStep(s, n), n);
  }

  lemma RequestLowersRank(s: Sys, n: nat, isWrite: bool)
    requires Inv(s) && s.txn == Serving(n, isWrite) && Requesting(s, n, isWrite)
    ensures Coherent(HomeStep(s, n)) && HomeStep(s, n).txn == s.txn && Rank(HomeStep(s, n)) < Rank(s)
  {
    RequestReceived(s, n, isWrite);
    RankOfPhase(s, n, isWrite);
    RankOfPhase(HomeStep(s, n), n, isWrite);
  }

  lemma FromRequesting(s: Sys, st: Step)
    requires Inv(s) && s.txn.Serving? && Requesting(s, s.txn.node, s.txn.isWrite) && Enabled(s, st) && Delivery(st)
    ensures Advances(s, st)
  {
    var n, isWrite := s.txn.node, s.txn.isWrite;
    assert forall m: nat :: IsNode(m) && m != n ==> Silent(s, m);
    assert st == HomeReceives(n);
    StepFrame(s, st);
    RequestReceived(s, n, isWrite);
    RequestLowersRank(s, n, isWrite);
    RequestPages(s, n, isWrite);
  }

  lemma FetchedPages(s: Sys, n: nat, isWrite: bool)
    requires Inv(s) && s.txn == Serving(n, isWrite) && Fetching(s, n, isWrite) && s.toHome[s.home.dir.owner] != []
    ensures var pages := Pages(SentIn(s, HomeReceives(s.home.dir.owner)));
      if !isWrite && n != s.home.me then OnePage(pages, n, s.latest) else pages == []
  {
    var o, me := s.home.dir.owner, s.home.me;
    var p := PagePacket(s.index, o, s.latest);
    assert s.toHome[o][0] == p;
    HoldersConnected(s.home.dir, me, n);
    if isWrite {
      assert o in InvalidateSet(s.home.dir, n) - {me};
      CollectingSendsNoPage(s.home, n, s.home.pending.clientFd, s.latest, s.index, HomeFds(me));
    } else {
      PagesOfOne(n, p);
    }
  }

  lemma OwnerAnswers(s: Sys)
    requires Inv(s) && s.txn.Serving? && Fetching(s, s.txn.node, s.txn.isWrite) && Enabled(s, NodeReceives(s.home.dir.owner))
    ensures Advances(s, NodeReceives(s.home.dir.owner))
  {
    var n, isWrite := s.txn.node, s.txn.isWrite;
    OwnerServes(s, n, isWrite);
    RankOfPhase(s, n, isWrite);
  }

  lemma PageComesBack(s: Sys)
    requires Inv(s) && s.txn.Serving? && Fetching(s, s.txn.node, s.txn.isWrite) && Enabled(s, HomeReceives(s.home.dir.owner))
    ensures Advances(s, HomeReceives(s.home.dir.owner))
  {
    var n, isWrite, st := s.txn.node, s.txn.isWrite, HomeReceives(s.home.dir.owner);
    StepFrame(s, st);
    RankOfPhase(s, n, isWrite);
    PageReceived(s, n, isWrite);
    FetchedPages(s, n, isWrite);
    if Next(s, st).txn == s.txn {
      RankOfPhase(Next(s, st), n, isWrite);
    }
  }

  lemma FromFetching(s: Sys, st: Step)
    requires Inv(s) && s.txn.Serving? && Fetching(s, s.txn.node, s.txn.isWrite) && Enabled(s, st) && Delivery(st)
    ensures Advances(s, st)
  {
    var o := s.home.dir.owner;
    assert forall m: nat :: IsNode(m) && m != o ==> Silent(s, m);
    if st == NodeReceives(o) {
      OwnerAnswers(s);
    } else {
      assert st == HomeReceives(o);
      PageComesBack(s);
    }
  }

  lemma FromCollecting(s: Sys, st: Step)
    requires Inv(s) && s.txn.Serving? && s.txn.isWrite && Collecting(s, s.txn.node) && Enabled(s, st) && Delivery(st)
    ensures Advances(s, st)
  {
    if st.NodeReceives? {
      HolderDrops(s, st.node);
    } else {
      AckComesIn(s, st.node);
    }
  }

  lemma HolderDrops(s: Sys, m: nat)
    requires Inv(s) && s.txn.Serving? && s.txn.isWrite && Collecting(s, s.txn.node) && Enabled(s, NodeReceives(m))
    ensures Advances(s, NodeReceives(m))
  {
    var n := s.txn.node;
    assert Silent(s, n);
    assert Dropping(s, m);
    StepFrame(s, NodeReceives(m));
    DropKeeps(s, n, m);
    DropLowersRank(s, n, m);
  }

  lemma AckPages(s: Sys, m: nat)
    requires Inv(s) && s.txn.Serving? && s.txn.isWrite && Collecting(s, s.txn.node) && Enabled(s, HomeReceives(m))
    ensures var pages, p := Pages(SentIn(s, HomeReceives(m))), s.home.pending;
      if p.expectedAcks == 1 && s.txn.node != s.home.me then OnePage(pages, s.txn.node, s.latest) else pages == []
  {
    var n, p := s.txn.node, s.home.pending;
    assert Silent(s, n);
    assert Dropping(s, m);
    PagesOfOne(p.clientFd, PagePacket(s.index, s.home.me, p.payload));
  }

  lemma AckComesIn(s: Sys, m: nat)
    requires Inv(s) && s.txn.Serving? && s.txn.isWrite && Collecting(s, s.txn.node) && Enabled(s, HomeReceives(m))
    ensures Advances(s, HomeReceives(m))
  {
    var n, t := s.txn.node, Next(s, HomeReceives(m));
    assert Silent(s, n);
    StepFrame(s, HomeReceives(m));
    RankOfPhase(s, n, true);
    AckReceived(s, n, m);
    AckPages(s, m);
    if s.home.pending.expectedAcks > 1 {
      AckLowersRank(s, n, m);
    } else if n != s.home.me {
      RankOfPhase(t, n, true);
    }
  }

  lemma DropLowersRank(s: Sys, n: nat, m: nat)
    requires Inv(s) && s.txn == Serving(n, true) && Collecting(s, n) && Enabled(s, NodeReceives(m))
    ensures Coherent(NodeStep(s, m)) && Rank(NodeStep(s, m)) < Rank(s)
  {
    var t := NodeStep(s, m);
    DropKeeps(s, n, m);
    assert Silent(s, n);
    assert Dropping(s, m);
    assert t.toNode[m] == [] && t.toHome[m] != [];
    OwingShrinks(s, t, m);
    assert m in Telling(s) && Telling(t) == Telling(s) - {m};
    RankOfPhase(s, n, true);
    RankOfPhase(t, n, true);
  }

  lemma AckLowersRank(s: Sys, n: nat, m: nat)
    requires Inv(s) && s.txn == Serving(n, true) && Collecting(s, n) && Enabled(s, HomeReceives(m))
    requires s.home.pending.expectedAcks > 1
    ensures Coherent(HomeStep(s, m)) && Rank(HomeStep(s, m)) < Rank(s)
  {
    var t := HomeStep(s, m);
    CountAckKeeps(s, n, m);
    AckInHand(s, n, m);
    assert t.toNode == s.toNode;
    assert Telling(t) == Telling(s);
    RankOfPhase(s, n, true);
    RankOfPhase(t, n, true);
  }

  lemma FromGranting(s: Sys, st: Step)
    requires Inv(s) && s.txn.Serving? && Granting(s, s.txn.node, s.txn.isWrite) && Enabled(s, st) && Delivery(st)
    ensures Advances(s, st)
  {
    var n, isWrite := s.txn.node, s.txn.isWrite;
    assert forall m: nat :: IsNode(m) && m != n ==> Silent(s, m);
    assert st == NodeReceives(n);
    StepFrame(s, st);
    RankOfPhase(s, n, isWrite);
    GrantArrives(s, n, isWrite);
    NodeReceivesKeeps(s, n);
  }

  lemma IdleIsQuiet(s: Sys, st: Step)
    requires Inv(s) && s.txn == Idle && Enabled(s, st)
    ensures !Delivery(st)
  {
    assert Silent(s, st.node);
  }

  /** Every delivery, of any packet in any order, brings the transaction being served closer to its end. */
  lemma DeliveryAdvances(s: Sys, st: Step)
    requires Inv(s) && Enabled(s, st) && Delivery(st)
    ensures Advances(s, st)
  {
    if s.txn == Idle {
      IdleIsQuiet(s, st);
    } else if Requesting(s, s.txn.node, s.txn.isWrite) {
      FromRequesting(s, st);
    } else if Fetching(s, s.txn.node, s.txn.isWrite) {
      FromFetching(s, st);
    } else if s.txn.isWrite && Collecting(s, s.txn.node) {
      FromCollecting(s, st);
    } else {
      FromGranting(s, st);
    }
  }

  // ---- Whole transactions ----

  /** However its packets are interleaved, a transaction being served takes at most Rank(s) deliveries. If it is
      over after these, the faulting node has the last value stored, and the page was sent once, with that
      value and to that node, if it still had to be sent; to the home node itself it is never sent. */
  lemma {:induction false} DeliveriesServe(s: Sys, steps: seq<Step>)
    requires Inv(s) && s.txn.Serving? && Runs(s, steps) && forall st <- steps :: Delivery(st)
    ensures var t, n := After(s, steps), s.txn.node;
      && Inv(t) && n < WIDTH && |steps| + Rank(t) <= Rank(s)
      && (t.txn == s.txn || t.txn == Idle)
      && (t.txn == Idle ==> Served(t, n, s.txn.isWrite, s.latest))
      && (t.txn == Idle ==> if PageDue(s) then OnePage(PagesSent(s, steps), n, s.latest) else PagesSent(s, steps) == [])
    decreases |steps|
  {
    if steps != [] {
      var st, t := steps[0], Next(s, steps[0]);
      DeliveryAdvances(s, st);
      assert PagesSent(s, steps) == Pages(SentIn(s, st)) + PagesSent(t, steps[1..]);
      if t.txn == Idle {
        DeliveryServed(s, st);
        NothingAfterTheEnd(t, steps[1..]);
      } else {
        DeliveriesServe(t, steps[1..]);
      }
    }
  }

  lemma NothingAfterTheEnd(s: Sys, steps: seq<Step>)
    requires Inv(s) && s.txn == Idle && Runs(s, steps) && forall st <- steps :: Delivery(st)
    ensures steps == []
  {
    if steps != [] {
      IdleIsQuiet(s, steps[0]);
    }
  }

  /** Every safe fault of a worker or of the home node is served: however the packets are interleaved, a run of
      deliveries after it is at most 133 long; when no further delivery is possible, the transaction is over,
      the faulting node has the last value stored, as owner if it wrote, and the page has been sent exactly
      once if the node is a worker, and not at all if it is the home node. */
  lemma EveryFaultIsServed(s: Sys, n: nat, isWrite: bool, steps: seq<Step>)
    requires Inv(s) && Enabled(s, Fault(n, isWrite)) && Safe(s, n, isWrite)
    requires Runs(Next(s, Fault(n, isWrite)), steps) && forall st <- steps :: Delivery(st)
    ensures |steps| <= 2 * WIDTH + 5
    ensures var t := After(Next(s, Fault(n, isWrite)), steps);
      (forall st :: Delivery(st) ==> !Enabled(t, st)) ==>
        && t.txn == Idle && Served(t, n, isWrite, s.latest)
        && var pages := PagesSent(s, [Fault(n, isWrite)] + steps);
           if n == s.home.me then pages == [] else OnePage(pages, n, s.latest)
  {
    var fault := Fault(n, isWrite);
    var u := Next(s, fault);
    var t := After(u, steps);
    assert ([fault] + steps)[0] == fault && ([fault] + steps)[1..] == steps;
    StepKeepsIffSafe(s, fault);
    FaultSendsNoPage(s, n, isWrite);
    if u.txn == Idle {
      FaultServed(s, n, isWrite);
      NothingAfterTheEnd(u, steps);
    } else {
      DeliveriesServe(u, steps);
      RankOfPhase(u, n, isWrite);
      if forall st :: Delivery(st) ==> !Enabled(t, st) {
        if t.txn.Serving? {
          var st := TransactionProgress(t);
        }
      }
    }
  }

  lemma FaultSendsNoPage(s: Sys, n: nat, isWrite: bool)
    requires Inv(s) && Enabled(s, Fault(n, isWrite)) && Safe(s, n, isWrite)
    ensures var t := Next(s, Fault(n, isWrite));
      && Pages(SentIn(s, Fault(n, isWrite))) == []
      && t.latest == s.latest && t.home.me == s.home.me
      && (t.txn.Serving? ==> t.txn == Serving(n, isWrite))
      && (n != s.home.me ==> PageDue(t) && t.txn.Serving?)
      && (n == s.home.me ==> !PageDue(t))
  {
    if n == s.home.me {
      LocalFaultSends(s, isWrite);
    } else {
      RemoteFaultKeeps(s, n, isWrite);
    }
  }

  lemma LocalFaultSends(s: Sys, isWrite: bool)
    requires Inv(s) && Enabled(s, Fault(s.home.me, isWrite))
    ensures var t := Next(s, Fault(s.home.me, isWrite));
      && Pages(SentIn(s, Fault(s.home.me, isWrite))) == []
      && t.latest == s.latest && t.home.me == s.home.me && (t.txn.Serving? ==> t.txn == Serving(s.home.me, isWrite))
  {
    LocalSendsNoPage(s.home.(status := Faulted(s.home.status, isWrite)), isWrite, s.index, HomeFds(s.home.me));
  }

  lemma LocalSendsNoPage(h: Home, isWrite: bool, index: nat, fds: seq<int>)
    requires Sane(h, fds)
    ensures Pages(LocalRequest(h, isWrite, index, fds).sent) == []
    ensures LocalRequest(h, isWrite, index, fds).home.me == h.me
  {
    CollectingSendsNoPage(h, h.me, -1, h.pending.payload, index, fds);
    PagesOfOne(fds[h.dir.owner], FetchPacket(index, h.me));
  }

  /** The page in the slot: in every state of a run of deliveries it is still there, or it has left for the
      writer, or the transaction is over. */
  lemma {:induction false} SlotKeepsPage(s: Sys, steps: seq<Step>)
    requires Inv(s) && s.txn.Serving? && s.txn.isWrite && Collecting(s, s.txn.node) && s.home.pending.payload == s.latest
    requires Runs(s, steps) && forall st <- steps :: Delivery(st)
    ensures var t, n := After(s, steps), s.txn.node;
      && Inv(t) && t.latest == s.latest
      && (t.txn == Idle || (t.txn == s.txn && (Granting(t, n, true) || (Collecting(t, n) && t.home.pending.payload == s.latest))))
    decreases |steps|
  {
    if steps != [] {
      var st, t, n := steps[0], Next(s, steps[0]), s.txn.node;
      CollectingGoesOn(s, st);
      if t.txn == Idle {
        NothingAfterTheEnd(t, steps[1..]);
      } else if Collecting(t, n) {
        SlotKeepsPage(t, steps[1..]);
      } else {
        PageOnItsWay(t, steps[1..]);
      }
    }
  }

  lemma CollectingGoesOn(s: Sys, st: Step)
    requires Inv(s) && s.txn.Serving? && s.txn.isWrite && Collecting(s, s.txn.node) && s.home.pending.payload == s.latest
    requires Enabled(s, st) && Delivery(st)
    ensures var t, n := Next(s, st), s.txn.node;
      && Inv(t) && t.latest == s.latest
      && (t.txn == Idle || (t.txn == s.txn && (Granting(t, n, true) || (Collecting(t, n) && t.home.pending.payload == s.latest))))
  {
    StepFrame(s, st);
    if st.NodeReceives? {
      DropKeeps(s, s.txn.node, st.node);
    } else {
      AckReceived(s, s.txn.node, st.node);
      if s.home.pending.expectedAcks > 1 {
        CountAckKeeps(s, s.txn.node, st.node);
      }
    }
  }

  lemma PageOnItsWay(s: Sys, steps: seq<Step>)
    requires Inv(s) && s.txn.Serving? && s.txn.isWrite && Granting(s, s.txn.node, true)
    requires Runs(s, steps) && forall st <- steps :: Delivery(st)
    ensures var t := After(s, steps); Inv(t) && t.latest == s.latest && (t.txn == Idle || t == s)
  {
    if steps != [] {
      FromGranting(s, steps[0]);
      RankOfPhase(s, s.txn.node, true);
      var t := Next(s, steps[0]);
      GrantEnds(s, steps[0]);
      NothingAfterTheEnd(t, steps[1..]);
    }
  }

  lemma GrantEnds(s: Sys, st: Step)
    requires Inv(s) && s.txn.Serving? && Granting(s, s.txn.node, s.txn.isWrite) && Enabled(s, st) && Delivery(st)
    ensures Next(s, st).txn == Idle
  {
    var n := s.txn.node;
    assert forall m: nat :: IsNode(m) && m != n ==> Silent(s, m);
    assert st == NodeReceives(n);
    GrantArrives(s, n, s.txn.isWrite);
  }

  /** The three-hop write, from the arrival of the page fetched from its owner to the end: the fetched bytes go out
      exactly once and to the writer, and at the end the writer has them and nobody else has a copy. In between
      they are in the slot: see SlotKeepsPage. */
  lemma ThreeHopHandoff(s: Sys, steps: seq<Step>)
    requires Inv(s) && s.txn.Serving? && s.txn.isWrite && Fetching(s, s.txn.node, true)
    requires s.toHome[s.home.dir.owner] != []
    requires Runs(s, steps) && (forall st <- steps :: Delivery(st)) && After(s, steps).txn == Idle
    ensures var t, n, fetched := After(s, steps), s.txn.node, s.toHome[s.home.dir.owner][0].payload;
      && Served(t, n, true, fetched)
      && (if n == s.home.me then PagesSent(s, steps) == [] else OnePage(PagesSent(s, steps), n, fetched))
      && forall k: nat :: IsNode(k) && k != n ==> !Resident(StatusOf(t, k))
  {
    var t, n := After(s, steps), s.txn.node;
    assert Silent(s, n);
    DeliveriesServe(s, steps);
    forall k: nat | IsNode(k) && k != n
      ensures !Resident(StatusOf(t, k))
    {
      assert CopyOk(t, k);
    }
  }
}
