/** Who the sequencer writes to, for any connection table, any requests and any acknowledgements: the nodes told to
    drop the page, the nodes that get it, and what the directory becomes. */
module SequencerPackets {
  import opened Wire
  import opened Bitmap
  import opened Directory
  import opened SequencerSpec
  import opened SequencerRuns
  import opened Invalidations

  /** The nodes that have to drop the page when a request is executed: every holder for a WRITE, the owner for a
      READ, and never the requester. */
  function MustDrop(d: Dir, q: Request): set<nat> {
    (if q.kind == WRITE then Holders(d) else if q.kind == READ && d.owner != 0 then {d.owner} else {}) - {q.node}
  }

  /** Their connections, in order; a node without one is not told. */
  function ToldFor(d: Dir, q: Request, fds: seq<int>): seq<int> {
    Told(MustDrop(d, q), fds, |fds|)
  }

  predicate HoldersInRange(d: Dir) {
    d.owner < WIDTH && forall m <- d.sharers :: m < WIDTH
  }

  function On(fd: int): seq<int> {
    if fd == -1 then [] else [fd]
  }

  lemma {:induction false} ToldOne(m: nat, fds: seq<int>, k: nat)
    requires k <= |fds|
    ensures Told({m}, fds, k) == if m < k then On(fds[m]) else []
    decreases k
  {
    if k > 0 {
      ToldOne(m, fds, k - 1);
    }
  }

  lemma {:induction false} ToldNobody(fds: seq<int>, k: nat)
    requires k <= |fds|
    ensures Told({}, fds, k) == []
    decreases k
  {
    if k > 0 {
      ToldNobody(fds, k - 1);
    }
  }

  /** Executing a request tells every connected node that must drop the page once, on its own connection; grants the
      page at once, on the request's connection, exactly if nobody must drop it and the type is known. */
  lemma ExecuteTells(r: Record, d: Dir, q: Request, fds: seq<int>)
    requires d.owner < WIDTH && |fds| == WIDTH && q.node < WIDTH && HoldersInRange(d)
    ensures var o := Execute(r, d, q, fds);
      && Invalidated(o.sent) == ToldFor(d, q, fds)
      && Grants(o.sent) == if Known(q) && MustDrop(d, q) == {} then On(q.clientFd) else []
  {
    OnePacket(q.clientFd, Grant(q.page));
    InvalidatedOne(q.clientFd, Grant(q.page));
    ToldNobody(fds, |fds|);
    if q.kind == WRITE {
      assert MustDrop(d, q) == InvalidateSet(d, q.node);
      BroadcastTellsAll(InvalidateSet(d, q.node), InvalidatePacket(q.page, 0), fds);
      BroadcastGrantsNothing(InvalidateSet(d, q.node), InvalidatePacket(q.page, 0), fds, 0);
    } else if q.kind == READ && d.owner != 0 && d.owner != q.node {
      assert MustDrop(d, q) == {d.owner};
      OnePacket(fds[d.owner], InvalidatePacket(q.page, q.node));
      InvalidatedOne(fds[d.owner], InvalidatePacket(q.page, q.node));
      ToldOne(d.owner, fds, |fds|);
    } else {
      assert MustDrop(d, q) == {};
    }
  }

  /** The record afterwards: waiting for the request's node until as many acknowledgements are in as nodes must drop the
      page, connected or not; not waiting if it was granted; the queue is left alone. */
  lemma ExecuteWaits(r: Record, d: Dir, q: Request, fds: seq<int>)
    requires d.owner < WIDTH && |fds| == WIDTH && !r.active && r.expectedAcks == 0
    ensures var o := Execute(r, d, q, fds);
      && o.rec.deferred == r.deferred && o.rec.expectedAcks == |MustDrop(d, q)|
      && (if Known(q) && MustDrop(d, q) == {} then !o.rec.active && o.rec.activeNode == 0
          else o.rec.active && o.rec.activeNode == q.node)
  {
    if q.kind == WRITE {
      assert MustDrop(d, q) == InvalidateSet(d, q.node);
    } else if q.kind == READ && d.owner != 0 && d.owner != q.node {
      assert MustDrop(d, q) == {d.owner};
    } else {
      assert MustDrop(d, q) == {};
    }
  }

  /** Every packet is a grant or an invalidation of the request's page, without contents; an invalidation for a READ
      names the reader. */
  lemma ExecutePackets(r: Record, d: Dir, q: Request, fds: seq<int>)
    requires d.owner < WIDTH && |fds| == WIDTH
    ensures forall x <- Execute(r, d, q, fds).sent ::
              && x.packet.page == q.page && x.packet.payload == ZeroPage()
              && (x.packet.kind == SEND_PAGE || x.packet.kind == INVALIDATE)
              && x.packet.sender == if x.packet.kind == INVALIDATE && q.kind == READ then q.node else 0
  {
    BroadcastMembers(InvalidateSet(d, q.node), InvalidatePacket(q.page, 0), fds, 0);
  }

  /** What executing a request does to the directory. */
  function OpsOf(qs: seq<Request>): seq<Op> {
    if qs == [] then []
    else (if qs[0].kind == WRITE then [Write(qs[0].node)] else if qs[0].kind == READ then [Read(qs[0].node)] else [])
         + OpsOf(qs[1..])
  }

  lemma OpsOfOne(d: Dir, q: Request)
    ensures Directory.Run(d, OpsOf([q]))
         == if q.kind == WRITE then ToModified(d, q.node) else if q.kind == READ then ToShared(d, q.node) else d
  {
    assert [q][1..] == [];
    var first := if q.kind == WRITE then [Write(q.node)] else if q.kind == READ then [Read(q.node)] else [];
    var ops := OpsOf([q]);
    assert ops == first + OpsOf([]) == first;
    if ops != [] {
      assert ops[1..] == [];
      assert Directory.Run(d, ops) == Directory.Run(Apply(d, ops[0]), []);
    }
  }

  /** One event, whatever it is: it tells nodes only for the request it starts; it grants the page to the active node,
      if it is the last acknowledgement, and to the started request, if that is granted at once; and the
      directory changes only by the started request. */
  lemma StepPackets(r: Record, d: Dir, e: Event, page: nat, fds: seq<int>)
    requires InRange(r, d, fds) && HoldersInRange(d) && (e.Arrival? ==> e.request.node < WIDTH)
    ensures var o, started := Step(r, d, e, page, fds), Started(r, e);
      && Invalidated(o.sent) == (if started == [] then [] else ToldFor(d, started[0], fds))
      && Grants(o.sent)
         == (if e.Acknowledgement? && r.active && r.expectedAcks == 1 then On(fds[r.activeNode]) else [])
            + (if started != [] && Known(started[0]) && MustDrop(d, started[0]) == {} then On(started[0].clientFd) else [])
      && o.dir == Directory.Run(d, OpsOf(started))
  {
    match e
    case Arrival(q) =>
      if !r.active {
        ExecuteTells(r, d, q, fds);
        OpsOfOne(d, q);
      }
    case Acknowledgement =>
      if r.active && r.expectedAcks == 1 {
        CompletionPackets(r, d, page, fds);
      }
  }

  lemma CompletionPackets(r: Record, d: Dir, page: nat, fds: seq<int>)
    requires InRange(r, d, fds) && HoldersInRange(d) && r.active && r.expectedAcks == 1
    ensures var o, started := OnAck(r, d, page, fds), Started(r, Acknowledgement);
      && Invalidated(o.sent) == (if started == [] then [] else ToldFor(d, started[0], fds))
      && Grants(o.sent)
         == On(fds[r.activeNode])
            + (if started != [] && Known(started[0]) && MustDrop(d, started[0]) == {} then On(started[0].clientFd) else [])
      && o.dir == Directory.Run(d, OpsOf(started))
  {
    var grant := Send(fds[r.activeNode], Grant(page));
    var next := Resume(Completed(r), d, fds);
    GrantsConcat(grant, next.sent);
    InvalidatedConcat(grant, next.sent);
    OnePacket(fds[r.activeNode], Grant(page));
    InvalidatedOne(fds[r.activeNode], Grant(page));
    if r.deferred != [] {
      ExecuteTells(Completed(r).(deferred := r.deferred[1..]), d, r.deferred[0], fds);
      OpsOfOne(d, r.deferred[0]);
    }
  }

  // ---- Runs ----

  /** The connections told, in order, when these requests are executed one after the other. */
  function AllTold(d: Dir, started: seq<Request>, fds: seq<int>): seq<int>
    decreases |started|
  {
    if started == [] then []
    else ToldFor(d, started[0], fds) + AllTold(Directory.Run(d, OpsOf([started[0]])), started[1..], fds)
  }

  lemma {:induction false} RunConcat(d: Dir, a: seq<Op>, b: seq<Op>)
    ensures Directory.Run(d, a + b) == Directory.Run(Directory.Run(d, a), b)
    decreases |a|
  {
    if a == [] {
      assert a + b == b;
    } else {
      assert (a + b)[0] == a[0] && (a + b)[1..] == a[1..] + b;
      RunConcat(Apply(d, a[0]), a[1..], b);
    }
  }

  /** At most one request, and then more. */
  lemma OneAndMore(d: Dir, one: seq<Request>, more: seq<Request>, fds: seq<int>)
    requires |one| <= 1
    ensures OpsOf(one + more) == OpsOf(one) + OpsOf(more)
    ensures AllTold(d, one + more, fds)
         == (if one == [] then [] else ToldFor(d, one[0], fds)) + AllTold(Directory.Run(d, OpsOf(one)), more, fds)
  {
    if one == [] {
      assert one + more == more;
    } else {
      assert one == [one[0]] && one[1..] == [] && (one + more)[0] == one[0] && (one + more)[1..] == more;
    }
  }

  lemma StepInRange(r: Record, d: Dir, e: Event, page: nat, fds: seq<int>)
    requires InRange(r, d, fds) && HoldersInRange(d) && (e.Arrival? ==> e.request.node < WIDTH)
    ensures HoldersInRange(Step(r, d, e, page, fds).dir)
  {
    StepPackets(r, d, e, page, fds);
    if Started(r, e) != [] {
      OpsOfOne(d, Started(r, e)[0]);
      assert Started(r, e) == [Started(r, e)[0]];
    }
  }

  /** Over every run, with requests of any types on any connections and any acknowledgements: the directory is what the
      started requests make of it, one after the other, and the nodes told to drop the page are exactly those
      that each of them finds, each once, on its own connection and in this order. */
  lemma {:induction false} RunPackets(r: Record, d: Dir, events: seq<Event>, page: nat, fds: seq<int>)
    requires InRange(r, d, fds) && HoldersInRange(d) && FromNodes(events)
    ensures var o, started := RunRecord(r, d, events, page, fds), AllStarted(r, d, events, page, fds);
      && o.dir == Directory.Run(d, OpsOf(started))
      && Invalidated(o.sent) == AllTold(d, started, fds)
    decreases |events|
  {
    if events != [] {
      var o := Step(r, d, events[0], page, fds);
      var one, more := Started(r, events[0]), AllStarted(o.rec, o.dir, events[1..], page, fds);
      StepPackets(r, d, events[0], page, fds);
      StepInRange(r, d, events[0], page, fds);
      RunPackets(o.rec, o.dir, events[1..], page, fds);
      RunUnfolds(r, d, events, page, fds);
      OneAndMore(d, one, more, fds);
      RunConcat(d, OpsOf(one), OpsOf(more));
      InvalidatedConcat(o.sent, RunRecord(o.rec, o.dir, events[1..], page, fds).sent);
    }
  }
}
