/** What the home node answers in any state and with any connection table: also where holders are not connected,
    the requester is the recorded owner, transactions overlap, or nobody asked. */
module HomeReplies {
  import opened Wire
  import opened Bitmap
  import opened Directory
  import opened PageStatus
  import opened HomeSpec
  import opened Invalidations
  import SequencerSpec
  import opened HomeRuns

  /** The packets ask connected nodes other than n about the page: a former owner for its copy, or holders to drop theirs. */
  ghost predicate Asks(sent: seq<Sent>, holders: set<nat>, n: nat, index: nat, fds: seq<int>) {
    && sent != []
    && forall x <- sent ::
         && x.fd != -1 && x.packet.page == index && (x.packet.kind == READ || x.packet.kind == INVALIDATE)
         && exists m: nat :: m < |fds| && m in holders && m != n && fds[m] == x.fd
  }

  /** The slot waits for as many acknowledgements as nodes have been told, for node n on connection fd. */
  predicate WaitsFor(p: Pending, n: nat, kind: nat, fd: int, sent: seq<Sent>) {
    p.requester == n && p.kind == kind && p.clientFd == fd && p.expectedAcks == |Invalidated(sent)|
  }

  function KnownHolders(d: Dir): set<nat> {
    Holders(d) + {d.owner}
  }

  /** Collecting starts: every connected holder other than the writer and the home node is told once, nobody else
      is, and as many acknowledgements are awaited. */
  lemma CollectingTells(h: Home, writer: nat, fd: int, payload: Page, index: nat, fds: seq<int>)
    requires Sane(h, fds)
    ensures var r := StartCollecting(h, writer, fd, payload, index, fds);
      && Invalidated(r.sent) == Told(Holders(h.dir) - {writer, h.me}, fds, |fds|)
      && WaitsFor(r.home.pending, writer, WRITE, fd, r.sent)
      && (forall x <- r.sent :: x.packet == Packet(INVALIDATE, index, 0, ZeroPage()))
      && (NeedsAcks(h, writer, fds) ==> Asks(r.sent, Holders(h.dir), writer, index, fds))
  {
    var others := InvalidateSet(h.dir, writer) - {h.me};
    var acks := Connected(others, fds);
    var r := StartCollecting(h, writer, fd, payload, index, fds);
    BroadcastTellsAll(acks, InvalidatePacket(index), fds);
    BroadcastMembers(acks, InvalidatePacket(index), fds, 0);
    SameTold(acks, others, fds, |fds|);
    assert others == Holders(h.dir) - {writer, h.me};
    ToldCount(acks, fds, |fds|);
    assert acks == set m: nat | m < |fds| && m in acks && fds[m] != -1;
  }

  lemma {:induction false} SameTold(a: set<nat>, b: set<nat>, fds: seq<int>, k: nat)
    requires k <= |fds| && a == Connected(b, fds)
    ensures Told(a, fds, k) == Told(b, fds, k)
    decreases k
  {
    if k > 0 {
      SameTold(a, b, fds, k - 1);
      assert k - 1 in a <==> k - 1 in b && fds[k - 1] != -1;
    }
  }

  /** No request waits for nothing: it is answered on its connection with the page the home node has, or zeros, or
      it fills the slot and connected nodes other than the requester have been asked. */
  lemma RequestGetsSomewhere(h: Home, n: nat, kind: nat, fd: int, index: nat, fds: seq<int>)
    requires Sane(h, fds) && fd != -1 && (kind == READ || kind == WRITE)
    ensures var r := RemoteRequest(h, n, kind, fd, index, fds);
      || r.sent == [Sent(fd, Packet(SEND_PAGE, index, h.me, if h.status == VALID then h.page else ZeroPage()))]
      || (WaitsFor(r.home.pending, n, kind, fd, r.sent) && Asks(r.sent, KnownHolders(h.dir), n, index, fds))
  {
    if h.status == VALID {
      FromCopy(h, n, kind, fd, index, fds);
    } else if AsksOwner(h, n, fds) {
      AskOwner(h, n, index, fds);
    } else {
      FromNothing(h, n, kind, fd, index, fds);
    }
  }

  lemma FromCopy(h: Home, n: nat, kind: nat, fd: int, index: nat, fds: seq<int>)
    requires Sane(h, fds) && fd != -1 && (kind == READ || kind == WRITE) && h.status == VALID
    ensures var r := RemoteRequest(h, n, kind, fd, index, fds);
      || r.sent == [Sent(fd, Packet(SEND_PAGE, index, h.me, h.page))]
      || (WaitsFor(r.home.pending, n, kind, fd, r.sent) && Asks(r.sent, KnownHolders(h.dir), n, index, fds))
  {
    if kind == WRITE && NeedsAcks(h, n, fds) {
      CollectingTells(Drop(h), n, fd, h.page, index, fds);
      AsksMore(RemoteRequest(h, n, kind, fd, index, fds).sent, h.dir, n, index, fds);
    }
  }

  lemma FromNothing(h: Home, n: nat, kind: nat, fd: int, index: nat, fds: seq<int>)
    requires Sane(h, fds) && fd != -1 && (kind == READ || kind == WRITE) && h.status != VALID && !AsksOwner(h, n, fds)
    ensures var r := RemoteRequest(h, n, kind, fd, index, fds);
      || r.sent == [Sent(fd, Packet(SEND_PAGE, index, h.me, ZeroPage()))]
      || (WaitsFor(r.home.pending, n, kind, fd, r.sent) && Asks(r.sent, KnownHolders(h.dir), n, index, fds))
  {
    if kind == WRITE && NeedsAcks(h, n, fds) {
      var g := if h.me in InvalidateSet(h.dir, n) && h.me != n then Drop(h) else h;
      CollectingTells(g, n, fd, ZeroPage(), index, fds);
      AsksMore(RemoteRequest(h, n, kind, fd, index, fds).sent, h.dir, n, index, fds);
    }
  }

  lemma AskOwner(h: Home, n: nat, index: nat, fds: seq<int>)
    requires Sane(h, fds)
    ensures var sent := Send(fds[h.dir.owner], FetchPacket(index, h.me));
      && Invalidated(sent) == []
      && (h.dir.owner != 0 && fds[h.dir.owner] != -1 && h.dir.owner != n ==> Asks(sent, KnownHolders(h.dir), n, index, fds))
  {
    InvalidatedOne(fds[h.dir.owner], FetchPacket(index, h.me));
  }

  lemma AsksMore(sent: seq<Sent>, d: Dir, n: nat, index: nat, fds: seq<int>)
    requires Asks(sent, Holders(d), n, index, fds)
    ensures Asks(sent, KnownHolders(d), n, index, fds)
  {
    forall x <- sent
      ensures exists m: nat :: m < |fds| && m in KnownHolders(d) && m != n && fds[m] == x.fd
    {
      var m: nat :| m < |fds| && m in Holders(d) && m != n && fds[m] == x.fd;
      assert m in KnownHolders(d);
    }
  }

  /** The home node's own request: unless the page is there and it only asks to read, the page is there now, or the
      home node fills its own slot and has asked connected nodes. */
  lemma LocalGetsSomewhere(h: Home, isWrite: bool, index: nat, fds: seq<int>)
    requires Sane(h, fds)
    ensures var r := LocalRequest(h, isWrite, index, fds);
      if Resident(h.status) && !isWrite then r == Reply(h, [])
      else
        || (r.home.status == VALID && r.sent == [] && r.home.page == if Resident(h.status) then h.page else ZeroPage())
        || (WaitsFor(r.home.pending, h.me, if isWrite then WRITE else READ, -1, r.sent)
            && r.home.status == h.status && Asks(r.sent, KnownHolders(h.dir), if Resident(h.status) then h.me else 0, index, fds))
  {
    if Resident(h.status) {
      if isWrite && NeedsAcks(h, h.me, fds) {
        CollectingTells(h, h.me, -1, h.pending.payload, index, fds);
        AsksMore(LocalRequest(h, isWrite, index, fds).sent, h.dir, h.me, index, fds);
      }
    } else {
      AskOwner(h, 0, index, fds);
    }
  }

  /** When another node becomes the owner, the home node keeps no copy: neither the one it serves nor one the
      directory knows of. What it has otherwise, it keeps. */
  lemma HomeGivesUp(h: Home, n: nat, fd: int, index: nat, fds: seq<int>)
    requires Sane(h, fds) && n != h.me && !AsksOwner(h, n, fds)
    ensures var r := RemoteRequest(h, n, WRITE, fd, index, fds);
      && r.home.dir == ToModified(h.dir, n)
      && if h.status == VALID || h.me in Holders(h.dir) then r.home.status == EMPTY && r.home.page == ZeroPage()
         else r.home.status == h.status && r.home.page == h.page
  {
  }

  /** The same when the page fetched for another node's write arrives. */
  lemma HomeGivesUpFetched(h: Home, packet: Packet, index: nat, fds: seq<int>)
    requires Sane(h, fds) && h.pending.requester != 0 && h.pending.requester != h.me && h.pending.kind == WRITE
    ensures var r := PageArrives(h, packet, index, fds);
      && r.home.dir == ToModified(h.dir, h.pending.requester)
      && if h.me in Holders(h.dir) then r.home.status == EMPTY && r.home.page == ZeroPage()
         else r.home.status == h.status && r.home.page == h.page
  {
  }

  /** The slot's contents change only when a write of another node starts collecting; they are then what the
      writer will get: the home node's page, zeros, or the fetched page. */
  lemma SlotContents(h: Home, n: nat, kind: nat, fd: int, packet: Packet, isWrite: bool, index: nat, fds: seq<int>)
    requires Sane(h, fds)
    ensures RemoteRequest(h, n, kind, fd, index, fds).home.pending.payload
         == if kind == WRITE && !AsksOwner(h, n, fds) && NeedsAcks(h, n, fds)
            then (if h.status == VALID then h.page else ZeroPage()) else h.pending.payload
    ensures var p := h.pending;
      PageArrives(h, packet, index, fds).home.pending.payload
      == if p.requester != 0 && p.kind == WRITE && NeedsAcks(h, p.requester, fds) then packet.payload else p.payload
    ensures LocalRequest(h, isWrite, index, fds).home.pending.payload == h.pending.payload
    ensures AckArrives(h, index).home.pending.payload == h.pending.payload
  {
  }

  /** An acknowledgement that nobody waits for does nothing. */
  lemma StrayAcknowledgement(h: Home, index: nat)
    requires h.pending.expectedAcks == 0
    ensures AckArrives(h, index) == Reply(h, [])
  {
  }

  /** A page that nobody waits for, such as an evicted page written back, never replaces contents: a home node
      without contents has them now, one with contents keeps its own, and nothing else happens. */
  lemma UnsolicitedPage(h: Home, packet: Packet, index: nat, fds: seq<int>)
    requires Sane(h, fds) && h.pending.requester == 0
    ensures var r := PageArrives(h, packet, index, fds);
      && r.sent == [] && r.home.dir == h.dir && r.home.pending == h.pending && r.home.me == h.me
      && r.home.status == VALID && r.home.page == if Resident(h.status) then h.page else packet.payload
  {
  }

  // ---- Nothing is left of a dropped page ----

  /** A node without the contents has zeros, never old contents. */
  ghost predicate AbsentIsZero(s: Sys)
    requires Shape(s)
  {
    forall n: nat :: IsNode(n) && !Resident(StatusOf(s, n)) ==> PageOf(s, n) == ZeroPage()
  }

  /** The home node's part: whatever it answers, without contents it has zeros. */
  lemma ReplyKeepsZero(s: Sys, m: nat, p: Packet)
    requires Shape(s) && m < WIDTH && (!Resident(s.home.status) ==> s.home.page == ZeroPage())
    ensures var h := HomeReply(s, m, p).home; h.me == s.home.me && (!Resident(h.status) ==> h.page == ZeroPage())
  {
  }

  lemma LocalKeepsZero(h: Home, isWrite: bool, index: nat, fds: seq<int>)
    requires Sane(h, fds) && (!Resident(h.status) ==> h.page == ZeroPage())
    ensures var t := LocalRequest(h, isWrite, index, fds).home; t.me == h.me && (!Resident(t.status) ==> t.page == ZeroPage())
  {
  }

  lemma FaultKeepsZero(s: Sys, n: nat, isWrite: bool)
    requires Enabled(s, Fault(n, isWrite)) && AbsentIsZero(s) && Shape(FaultStep(s, n, isWrite))
    ensures AbsentIsZero(FaultStep(s, n, isWrite))
  {
    assert !Resident(StatusOf(s, n)) ==> PageOf(s, n) == ZeroPage();
    if n == s.home.me {
      LocalKeepsZero(s.home.(status := Faulted(s.home.status, isWrite)), isWrite, s.index, HomeFds(n));
    }
    OthersKept(s, FaultStep(s, n, isWrite), n);
  }

  /** Only node n's contents differ. */
  lemma OthersKept(s: Sys, t: Sys, n: nat)
    requires Shape(s) && Shape(t) && IsNode(n) && t.home.me == s.home.me && AbsentIsZero(s)
    requires forall m: nat :: IsNode(m) && m != n ==> StatusOf(t, m) == StatusOf(s, m) && PageOf(t, m) == PageOf(s, m)
    requires !Resident(StatusOf(t, n)) ==> PageOf(t, n) == ZeroPage()
    ensures AbsentIsZero(t)
  {
  }

  lemma HomeReceivesZero(s: Sys, m: nat)
    requires Enabled(s, HomeReceives(m)) && AbsentIsZero(s) && Shape(HomeStep(s, m))
    ensures AbsentIsZero(HomeStep(s, m))
  {
    assert !Resident(StatusOf(s, s.home.me)) ==> PageOf(s, s.home.me) == ZeroPage();
    ReplyKeepsZero(s, m, s.toHome[m][0]);
    OthersKept(s, HomeStep(s, m), s.home.me);
  }

  lemma NodeReceivesZero(s: Sys, m: nat)
    requires Enabled(s, NodeReceives(m)) && AbsentIsZero(s)
    ensures Shape(NodeStep(s, m)) && AbsentIsZero(NodeStep(s, m))
  {
    assert !Resident(StatusOf(s, m)) ==> PageOf(s, m) == ZeroPage();
    OthersKept(s, NodeStep(s, m), m);
  }

  lemma LeftoverZero(s: Sys, isWrite: bool)
    requires Enabled(s, Leftover(s.home.me, isWrite)) && AbsentIsZero(s) && Shape(LeftoverStep(s, isWrite))
    ensures AbsentIsZero(LeftoverStep(s, isWrite))
  {
    LocalKeepsZero(s.home, isWrite, s.index, HomeFds(s.home.me));
    OthersKept(s, LeftoverStep(s, isWrite), s.home.me);
  }

  /** Every step keeps it so, also an unsafe one; a store needs the page. */
  lemma StepKeepsZero(s: Sys, st: Step)
    requires Enabled(s, st) && AbsentIsZero(s) && Shape(Next(s, st)) && (st.Store? ==> Resident(StatusOf(s, st.node)))
    ensures AbsentIsZero(Next(s, st))
  {
    match st
    case Fault(n, isWrite) => FaultKeepsZero(s, n, isWrite);
    case Leftover(n, isWrite) => LeftoverZero(s, isWrite);
    case HomeReceives(m) => HomeReceivesZero(s, m);
    case NodeReceives(m) => NodeReceivesZero(s, m);
    case Store(n, v) => OthersKept(s, Next(s, st), n);
  }

  // ---- The connection table ----

  /** A packet of node `node` came in on connection fd. */
  datatype Arrival = Arrival(node: nat, fd: int)

  /** The table after some arrivals. */
  function Table(fds: seq<int>, arrivals: seq<Arrival>): (t: seq<int>)
    ensures |t| == |fds|
    decreases |arrivals|
  {
    if arrivals == [] then fds else Table(Connect(fds, arrivals[0].node, arrivals[0].fd), arrivals[1..])
  }

  /** The last connection of node n, if it has had one. */
  function LastOf(arrivals: seq<Arrival>, n: nat, otherwise: int): int {
    if arrivals == [] then otherwise
    else if arrivals[|arrivals| - 1].node == n then arrivals[|arrivals| - 1].fd
    else LastOf(arrivals[..|arrivals| - 1], n, otherwise)
  }

  lemma {:induction false} TableAppend(fds: seq<int>, arrivals: seq<Arrival>, a: Arrival)
    ensures Table(fds, arrivals + [a]) == Connect(Table(fds, arrivals), a.node, a.fd)
    decreases |arrivals|
  {
    var all := arrivals + [a];
    if arrivals == [] {
      assert all[1..] == [];
    } else {
      assert all[1..] == arrivals[1..] + [a];
      TableAppend(Connect(fds, arrivals[0].node, arrivals[0].fd), arrivals[1..], a);
    }
  }

  /** After any arrivals, each node below 64 is recorded with its last connection, and an id above changes nothing. */
  lemma {:induction false} LastConnectionCounts(fds: seq<int>, arrivals: seq<Arrival>, n: nat)
    requires n < |fds|
    ensures Table(fds, arrivals)[n] == LastOf(arrivals, n, fds[n])
    decreases |arrivals|
  {
    if arrivals != [] {
      var a, before := arrivals[|arrivals| - 1], arrivals[..|arrivals| - 1];
      assert arrivals == before + [a];
      TableAppend(fds, before, a);
      LastConnectionCounts(fds, before, n);
    }
  }

  /** From an empty table, once every other node has come in on the connection of its own number and the home node
      has not: the table that the runs of the live path start from. */
  lemma AllConnected(arrivals: seq<Arrival>, me: nat)
    requires forall a <- arrivals :: a.node != me && a.fd == a.node
    requires forall n: nat :: n < WIDTH && n != me ==> Arrival(n, n) in arrivals
    ensures Table(seq(WIDTH, _ => -1), arrivals) == HomeFds(me)
  {
    var empty: seq<int> := seq(WIDTH, _ => -1);
    forall n: nat | n < WIDTH
      ensures Table(empty, arrivals)[n] == if n == me then -1 else n
    {
      LastConnectionCounts(empty, arrivals, n);
      LastIsOwn(arrivals, n);
    }
  }

  lemma {:induction false} LastIsOwn(arrivals: seq<Arrival>, n: nat)
    requires forall a <- arrivals :: a.fd == a.node
    ensures LastOf(arrivals, n, -1) == if Arrival(n, n) in arrivals then n else -1
    decreases |arrivals|
  {
    if arrivals != [] {
      var a, before := arrivals[|arrivals| - 1], arrivals[..|arrivals| - 1];
      assert arrivals == before + [a];
      LastIsOwn(before, n);
    }
  }
}
