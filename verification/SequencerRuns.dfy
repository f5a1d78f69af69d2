/** The sequencer against an arbitrary environment: any requests, from any nodes and in any number, and any
    acknowledgements, whether expected or not. */
module SequencerRuns {
  import opened Wire
  import opened Bitmap
  import opened Directory
  import opened SequencerSpec

  datatype Event = Arrival(request: Request) | Acknowledgement

  function Step(r: Record, d: Dir, e: Event, page: nat, fds: seq<int>): Outcome
    requires d.owner < WIDTH && r.activeNode < WIDTH && |fds| == WIDTH
  {
    match e
    case Arrival(q) => OnRequest(r, d, q, fds)
    case Acknowledgement => OnAck(r, d, page, fds)
  }

  /** The request that the event starts: one that arrives at an idle page, or the oldest waiting one when the
      last acknowledgement comes in. */
  function Started(r: Record, e: Event): (s: seq<Request>)
    ensures |s| <= 1
  {
    match e
    case Arrival(q) => if r.active then [] else [q]
    case Acknowledgement => if r.active && r.expectedAcks == 1 && r.deferred != [] then [r.deferred[0]] else []
  }

  // ---- Conservation and order ----

  /** The sequencer of one page with its history, each list in order: the requests accepted, those that had to
      wait, the waiting ones started, the one being served, those granted, and the packets sent. */
  datatype Log = Log(rec: Record, dir: Dir, accepted: seq<Request>, held: seq<Request>, resumed: seq<Request>,
                     current: seq<Request>, granted: seq<Request>, sent: seq<Sent>)

  const START := Log(IDLE, INITIAL, [], [], [], [], [], [])

  /** A READ or WRITE that came in on the connection recorded for its node. */
  predicate Proper(q: Request, page: nat, fds: seq<int>) {
    && q.node < |fds| && q.clientFd == fds[q.node] && q.clientFd != -1
    && q.page == page && (q.kind == READ || q.kind == WRITE)
  }

  predicate SaneRecord(r: Record, d: Dir, page: nat, fds: seq<int>) {
    && |fds| == WIDTH
    && d.owner < WIDTH
    && r.activeNode < WIDTH
    && (r.active ==> r.expectedAcks > 0)
    && (forall q <- r.deferred :: Proper(q, page, fds))
  }

  /** While a transaction is active, one request is being served, and its node is the active node. */
  predicate Sane(l: Log, page: nat, fds: seq<int>) {
    && SaneRecord(l.rec, l.dir, page, fds)
    && (l.rec.active ==> |l.current| == 1 && Proper(l.current[0], page, fds) && l.current[0].node == l.rec.activeNode)
    && (!l.rec.active ==> l.current == [])
  }

  /** The last acknowledgement completes the request being served; a started request is then the one being
      served if it left the page active, and is granted already if it did not. */
  function Advance(l: Log, e: Event, page: nat, fds: seq<int>): Log
    requires Sane(l, page, fds)
  {
    var o := Step(l.rec, l.dir, e, page, fds);
    var started := Started(l.rec, e);
    var completed := e.Acknowledgement? && l.rec.active && l.rec.expectedAcks == 1;
    Log(o.rec, o.dir,
        if e.Arrival? then l.accepted + [e.request] else l.accepted,
        if e.Arrival? && l.rec.active then l.held + [e.request] else l.held,
        if e.Acknowledgement? then l.resumed + started else l.resumed,
        if o.rec.active then (if started != [] then started else l.current) else [],
        l.granted + (if completed then l.current else []) + (if o.rec.active then [] else started),
        l.sent + o.sent)
  }

  function Connections(qs: seq<Request>): seq<int> {
    seq(|qs|, i requires 0 <= i < |qs| => qs[i].clientFd)
  }

  /** The connections on which the page was granted, in order. */
  function Grants(sent: seq<Sent>): seq<int> {
    if sent == [] then []
    else (if sent[0].packet.kind == SEND_PAGE then [sent[0].fd] else []) + Grants(sent[1..])
  }

  /** The granted requests, the one being served and those that wait. */
  function Books(l: Log): multiset<Request> {
    multiset(l.granted) + multiset(l.current) + multiset(l.rec.deferred)
  }

  /** Every accepted request is exactly one of granted, being served or waiting, and the grants sent are those
      of the granted requests, one each and each on its request's connection. */
  predicate Conserved(l: Log) {
    && multiset(l.accepted) == Books(l)
    && Grants(l.sent) == Connections(l.granted)
  }

  /** Waiting requests are started in the order in which they began to wait. */
  predicate InOrder(l: Log) {
    l.held == l.resumed + l.rec.deferred
  }

  lemma {:induction false} GrantsConcat(a: seq<Sent>, b: seq<Sent>)
    ensures Grants(a + b) == Grants(a) + Grants(b)
    decreases |a|
  {
    if a == [] {
      assert a + b == b;
    } else {
      var first := if a[0].packet.kind == SEND_PAGE then [a[0].fd] else [];
      GrantsConcat(a[1..], b);
      assert (a + b)[0] == a[0] && (a + b)[1..] == a[1..] + b;
      assert Grants(a + b) == first + (Grants(a[1..]) + Grants(b)) == (first + Grants(a[1..])) + Grants(b);
    }
  }

  lemma {:induction false} BroadcastGrantsNothing(targets: set<nat>, packet: Packet, fds: seq<int>, i: nat)
    requires i <= WIDTH && |fds| == WIDTH && packet.kind != SEND_PAGE
    ensures Grants(Broadcast(targets, packet, fds, i)) == []
    decreases |fds| - i
  {
    if i < WIDTH {
      BroadcastGrantsNothing(targets, packet, fds, i + 1);
      var first := if i in targets then Send(fds[i], packet) else [];
      GrantsConcat(first, Broadcast(targets, packet, fds, i + 1));
      OnePacket(fds[i], packet);
    }
  }

  lemma OnePacket(fd: int, packet: Packet)
    ensures Grants(Send(fd, packet)) == if fd != -1 && packet.kind == SEND_PAGE then [fd] else []
  {
    assert Send(fd, packet) == [] || Send(fd, packet)[1..] == [];
  }

  /** Executing a request either grants it at once, on its own connection, or makes it the active one. */
  lemma ExecuteGrants(r: Record, d: Dir, q: Request, page: nat, fds: seq<int>)
    requires !r.active && d.owner < WIDTH && |fds| == WIDTH && Proper(q, page, fds)
    ensures var o := Execute(r, d, q, fds);
      && o.rec.activeNode < WIDTH && o.dir.owner < WIDTH && o.rec.deferred == r.deferred
      && (o.rec.active ==> o.rec.activeNode == q.node && o.rec.expectedAcks > 0)
      && Grants(o.sent) == if o.rec.active then [] else [q.clientFd]
  {
    var o := Execute(r, d, q, fds);
    OnePacket(q.clientFd, Grant(q.page));
    if q.kind == WRITE && o.rec.active {
      assert InvalidateSet(d, q.node) != {};
      BroadcastGrantsNothing(InvalidateSet(d, q.node), InvalidatePacket(q.page, 0), fds, 0);
    } else if q.kind == READ && o.rec.active {
      OnePacket(fds[d.owner], InvalidatePacket(q.page, q.node));
    }
  }

  /** An accepted request is granted at once, or is the one being served, or waits. */
  lemma ArrivalGrants(l: Log, q: Request, page: nat, fds: seq<int>)
    requires Sane(l, page, fds) && Proper(q, page, fds)
    ensures var o, t := Step(l.rec, l.dir, Arrival(q), page, fds), Advance(l, Arrival(q), page, fds);
      && Sane(t, page, fds)
      && Connections(t.granted) == Connections(l.granted) + Grants(o.sent)
  {
    if !l.rec.active {
      ExecuteGrants(l.rec, l.dir, q, page, fds);
    }
  }

  /** The record, and the grant of the completed request, after the last acknowledgement with nobody waiting. */
  lemma LastAckGrants(l: Log, page: nat, fds: seq<int>)
    requires Sane(l, page, fds) && l.rec.active && l.rec.expectedAcks == 1 && l.rec.deferred == []
    ensures var o := OnAck(l.rec, l.dir, page, fds);
      && o.rec == Completed(l.rec) && o.dir == l.dir
      && Grants(o.sent) == [l.current[0].clientFd]
  {
    OnePacket(fds[l.rec.activeNode], Grant(page));
    assert Send(fds[l.rec.activeNode], Grant(page)) + [] == Send(fds[l.rec.activeNode], Grant(page));
  }

  /** The same with a request waiting, which is started. */
  lemma LastAckResumes(l: Log, page: nat, fds: seq<int>)
    requires Sane(l, page, fds) && l.rec.active && l.rec.expectedAcks == 1 && l.rec.deferred != []
    ensures var o, q := OnAck(l.rec, l.dir, page, fds), l.rec.deferred[0];
      && o.rec.activeNode < WIDTH && o.dir.owner < WIDTH && o.rec.deferred == l.rec.deferred[1..]
      && (o.rec.active ==> o.rec.activeNode == q.node && o.rec.expectedAcks > 0)
      && Grants(o.sent) == [l.current[0].clientFd] + if o.rec.active then [] else [q.clientFd]
  {
    var rest := Completed(l.rec).(deferred := l.rec.deferred[1..]);
    var next := Execute(rest, l.dir, l.rec.deferred[0], fds);
    ExecuteGrants(rest, l.dir, l.rec.deferred[0], page, fds);
    GrantsConcat(Send(fds[l.rec.activeNode], Grant(page)), next.sent);
    OnePacket(fds[l.rec.activeNode], Grant(page));
  }

  /** The lists after the last acknowledgement. */
  lemma LastAckLog(l: Log, page: nat, fds: seq<int>)
    requires Sane(l, page, fds) && l.rec.active && l.rec.expectedAcks == 1
    ensures var t := Advance(l, Acknowledgement, page, fds);
      && t.held == l.held && t.resumed == l.resumed + (if l.rec.deferred == [] then [] else [l.rec.deferred[0]])
      && (if l.rec.deferred == [] then
            t.granted == l.granted + l.current && t.current == [] && t.rec.deferred == []
          else
            && t.rec.deferred == l.rec.deferred[1..]
            && if t.rec.active then t.granted == l.granted + l.current && t.current == [l.rec.deferred[0]]
               else t.granted == l.granted + l.current + [l.rec.deferred[0]] && t.current == [])
  {
    if l.rec.deferred == [] {
      LastAckGrants(l, page, fds);
    } else {
      LastAckResumes(l, page, fds);
    }
  }

  lemma AcknowledgementSane(l: Log, page: nat, fds: seq<int>)
    requires Sane(l, page, fds)
    ensures Sane(Advance(l, Acknowledgement, page, fds), page, fds)
  {
    if l.rec.active && l.rec.expectedAcks == 1 {
      LastAckLog(l, page, fds);
      if l.rec.deferred == [] {
        LastAckGrants(l, page, fds);
      } else {
        LastAckResumes(l, page, fds);
      }
    }
  }

  lemma ConnectionsConcat(a: seq<Request>, b: seq<Request>)
    ensures Connections(a + b) == Connections(a) + Connections(b)
  {
  }

  lemma AcknowledgementGrants(l: Log, page: nat, fds: seq<int>)
    requires Sane(l, page, fds)
    ensures var o, t := Step(l.rec, l.dir, Acknowledgement, page, fds), Advance(l, Acknowledgement, page, fds);
      Connections(t.granted) == Connections(l.granted) + Grants(o.sent)
  {
    var t := Advance(l, Acknowledgement, page, fds);
    if l.rec.active && l.rec.expectedAcks == 1 {
      LastAckLog(l, page, fds);
      ConnectionsConcat(l.granted, l.current);
      assert Connections(l.current) == [l.current[0].clientFd];
      if l.rec.deferred == [] {
        LastAckGrants(l, page, fds);
      } else {
        var q := l.rec.deferred[0];
        LastAckResumes(l, page, fds);
        ConnectionsConcat(l.granted + l.current, [q]);
        assert Connections([q]) == [q.clientFd];
      }
    } else {
      assert t.granted == l.granted + [] + [] == l.granted;
    }
  }

  /** The grants an event sends: the completed request's, then the started one's if it is granted at once. */
  lemma StepGrants(l: Log, e: Event, page: nat, fds: seq<int>)
    requires Sane(l, page, fds) && (e.Arrival? ==> Proper(e.request, page, fds))
    ensures var o, t := Step(l.rec, l.dir, e, page, fds), Advance(l, e, page, fds);
      && Sane(t, page, fds)
      && Connections(t.granted) == Connections(l.granted) + Grants(o.sent)
  {
    match e
    case Arrival(q) => ArrivalGrants(l, q, page, fds);
    case Acknowledgement =>
      AcknowledgementSane(l, page, fds);
      AcknowledgementGrants(l, page, fds);
  }

  lemma ArrivalBooks(l: Log, q: Request, page: nat, fds: seq<int>)
    requires Sane(l, page, fds) && Proper(q, page, fds)
    ensures Books(Advance(l, Arrival(q), page, fds)) == Books(l) + multiset{q}
  {
    if !l.rec.active {
      ExecuteGrants(l.rec, l.dir, q, page, fds);
    }
  }

  lemma SplitHead(d: seq<Request>)
    requires d != []
    ensures multiset(d) == multiset{d[0]} + multiset(d[1..])
  {
    assert d == [d[0]] + d[1..];
  }

  lemma LastAckBooks(l: Log, page: nat, fds: seq<int>)
    requires Sane(l, page, fds) && l.rec.active && l.rec.expectedAcks == 1
    ensures Books(Advance(l, Acknowledgement, page, fds)) == Books(l)
  {
    var t := Advance(l, Acknowledgement, page, fds);
    LastAckLog(l, page, fds);
    if l.rec.deferred == [] {
      assert multiset(t.granted) == multiset(l.granted) + multiset(l.current);
    } else {
      SplitHead(l.rec.deferred);
      assert multiset(t.granted) + multiset(t.current)
          == multiset(l.granted) + multiset(l.current) + multiset{l.rec.deferred[0]};
    }
  }

  lemma AcknowledgementBooks(l: Log, page: nat, fds: seq<int>)
    requires Sane(l, page, fds)
    ensures Books(Advance(l, Acknowledgement, page, fds)) == Books(l)
  {
    if l.rec.active && l.rec.expectedAcks == 1 {
      LastAckBooks(l, page, fds);
    } else {
      var t := Advance(l, Acknowledgement, page, fds);
      assert t.granted == l.granted + [] + [] == l.granted;
      assert t.current == l.current && t.rec.deferred == l.rec.deferred;
    }
  }

  /** No event loses or duplicates a request. */
  lemma StepConserves(l: Log, e: Event, page: nat, fds: seq<int>)
    requires Sane(l, page, fds) && (e.Arrival? ==> Proper(e.request, page, fds)) && Conserved(l)
    ensures Conserved(Advance(l, e, page, fds))
  {
    StepGrants(l, e, page, fds);
    GrantsConcat(l.sent, Step(l.rec, l.dir, e, page, fds).sent);
    match e
    case Arrival(q) => ArrivalBooks(l, q, page, fds);
    case Acknowledgement => AcknowledgementBooks(l, page, fds);
  }

  lemma ArrivalKeepsOrder(l: Log, q: Request, page: nat, fds: seq<int>)
    requires Sane(l, page, fds) && InOrder(l) && Proper(q, page, fds)
    ensures InOrder(Advance(l, Arrival(q), page, fds))
  {
    if !l.rec.active {
      ExecuteGrants(l.rec, l.dir, q, page, fds);
    } else {
      assert l.held + [q] == l.resumed + (l.rec.deferred + [q]);
    }
  }

  lemma MovesOver(held: seq<Request>, resumed: seq<Request>, waiting: seq<Request>)
    requires held == resumed + waiting && waiting != []
    ensures held == (resumed + [waiting[0]]) + waiting[1..]
  {
  }

  lemma AcknowledgementKeepsOrder(l: Log, page: nat, fds: seq<int>)
    requires Sane(l, page, fds) && InOrder(l)
    ensures InOrder(Advance(l, Acknowledgement, page, fds))
  {
    if l.rec.active && l.rec.expectedAcks == 1 {
      LastAckLog(l, page, fds);
      if l.rec.deferred != [] {
        MovesOver(l.held, l.resumed, l.rec.deferred);
      }
    }
  }

  lemma StepKeepsOrder(l: Log, e: Event, page: nat, fds: seq<int>)
    requires Sane(l, page, fds) && InOrder(l) && (e.Arrival? ==> Proper(e.request, page, fds))
    ensures InOrder(Advance(l, e, page, fds))
  {
    match e
    case Arrival(q) => ArrivalKeepsOrder(l, q, page, fds);
    case Acknowledgement => AcknowledgementKeepsOrder(l, page, fds);
  }

  predicate ProperEvents(events: seq<Event>, page: nat, fds: seq<int>) {
    forall e <- events :: e.Arrival? ==> Proper(e.request, page, fds)
  }

  function Run(l: Log, events: seq<Event>, page: nat, fds: seq<int>): Log
    requires Sane(l, page, fds) && ProperEvents(events, page, fds)
    decreases |events|
  {
    if events == [] then l
    else
      StepGrants(l, events[0], page, fds);
      Run(Advance(l, events[0], page, fds), events[1..], page, fds)
  }

  lemma {:induction false} RunKeeps(l: Log, events: seq<Event>, page: nat, fds: seq<int>)
    requires Sane(l, page, fds) && ProperEvents(events, page, fds) && Conserved(l) && InOrder(l)
    ensures var t := Run(l, events, page, fds); Sane(t, page, fds) && Conserved(t) && InOrder(t)
    decreases |events|
  {
    if events != [] {
      StepGrants(l, events[0], page, fds);
      StepConserves(l, events[0], page, fds);
      StepKeepsOrder(l, events[0], page, fds);
      RunKeeps(Advance(l, events[0], page, fds), events[1..], page, fds);
    }
  }

  /** Conservation and order over every run of the sequencer, whatever its environment does: a request is
      never lost, never granted twice and never answered on another connection, and the queue is FIFO. */
  lemma RunConserves(events: seq<Event>, page: nat, fds: seq<int>)
    requires |fds| == WIDTH && ProperEvents(events, page, fds)
    ensures var t := Run(START, events, page, fds); Sane(t, page, fds) && Conserved(t) && InOrder(t)
  {
    RunKeeps(START, events, page, fds);
  }

  // ---- Requests of any type ----

  /** The page is locked with nothing expected. */
  predicate Wedged(r: Record) {
    r.active && r.expectedAcks == 0
  }

  predicate Known(q: Request) {
    q.kind == READ || q.kind == WRITE
  }

  predicate InRange(r: Record, d: Dir, fds: seq<int>) {
    && d.owner < WIDTH && r.activeNode < WIDTH && |fds| == WIDTH
    && forall q <- r.deferred :: q.node < WIDTH
  }

  /** A record that is neither wedged nor expects acknowledgements while idle. */
  predicate Working(r: Record) {
    r.active <==> r.expectedAcks > 0
  }

  /** An event wedges the page exactly when the request it starts is neither a READ nor a WRITE, whether that
      request has just arrived or was waiting. */
  lemma StepWedgesIffUnknownType(r: Record, d: Dir, e: Event, page: nat, fds: seq<int>)
    requires InRange(r, d, fds) && Working(r) && (e.Arrival? ==> e.request.node < WIDTH)
    ensures var o := Step(r, d, e, page, fds);
      && (Wedged(o.rec) <==> Started(r, e) != [] && !Known(Started(r, e)[0]))
      && (!Wedged(o.rec) ==> Working(o.rec))
  {
    if Started(r, e) != [] {
      var q := Started(r, e)[0];
      var targets := InvalidateSet(d, q.node);
      assert targets != {} ==> |targets| > 0;
    }
  }

  predicate FromNodes(events: seq<Event>) {
    forall e <- events :: e.Arrival? ==> e.request.node < WIDTH
  }

  function RunRecord(r: Record, d: Dir, events: seq<Event>, page: nat, fds: seq<int>): Outcome
    requires InRange(r, d, fds) && FromNodes(events)
    decreases |events|
  {
    if events == [] then Outcome(r, d, [])
    else
      var o := Step(r, d, events[0], page, fds);
      var rest := RunRecord(o.rec, o.dir, events[1..], page, fds);
      Outcome(rest.rec, rest.dir, o.sent + rest.sent)
  }

  /** Nothing that can happen to a wedged page sends a packet or unlocks it. */
  lemma {:induction false} WedgedForever(r: Record, d: Dir, events: seq<Event>, page: nat, fds: seq<int>)
    requires InRange(r, d, fds) && FromNodes(events) && Wedged(r)
    ensures var o := RunRecord(r, d, events, page, fds); Wedged(o.rec) && o.dir == d && o.sent == []
    decreases |events|
  {
    if events != [] {
      var o := Step(r, d, events[0], page, fds);
      WedgedForever(o.rec, o.dir, events[1..], page, fds);
    }
  }

  /** All requests that the run starts. */
  function AllStarted(r: Record, d: Dir, events: seq<Event>, page: nat, fds: seq<int>): seq<Request>
    requires InRange(r, d, fds) && FromNodes(events)
    decreases |events|
  {
    if events == [] then []
    else
      var o := Step(r, d, events[0], page, fds);
      Started(r, events[0]) + AllStarted(o.rec, o.dir, events[1..], page, fds)
  }

  ghost predicate SomeUnknown(qs: seq<Request>) {
    exists q <- qs :: !Known(q)
  }

  lemma UnknownInEither(a: seq<Request>, b: seq<Request>)
    requires |a| <= 1
    ensures SomeUnknown(a + b) <==> (a != [] && !Known(a[0])) || SomeUnknown(b)
  {
    if a != [] {
      assert a[0] in a + b;
    }
    if SomeUnknown(b) {
      var q :| q in b && !Known(q);
      assert q in a + b;
    }
  }

  /** One event of a run: the rest of it starts from what the event leaves. */
  lemma RunUnfolds(r: Record, d: Dir, events: seq<Event>, page: nat, fds: seq<int>)
    requires InRange(r, d, fds) && FromNodes(events) && events != []
    ensures var o := Step(r, d, events[0], page, fds);
      && InRange(o.rec, o.dir, fds) && FromNodes(events[1..])
      && RunRecord(r, d, events, page, fds).rec == RunRecord(o.rec, o.dir, events[1..], page, fds).rec
      && AllStarted(r, d, events, page, fds) == Started(r, events[0]) + AllStarted(o.rec, o.dir, events[1..], page, fds)
  {
  }

  /** Over every run with requests of any types: the page ends up locked for good exactly when one of the
      requests started, from the connection or from the queue, is neither a READ nor a WRITE. */
  lemma {:induction false} WedgesIffUnknownType(r: Record, d: Dir, events: seq<Event>, page: nat, fds: seq<int>)
    requires InRange(r, d, fds) && FromNodes(events) && Working(r)
    ensures Wedged(RunRecord(r, d, events, page, fds).rec) <==> SomeUnknown(AllStarted(r, d, events, page, fds))
    decreases |events|
  {
    if events != [] {
      var e, o := events[0], Step(r, d, events[0], page, fds);
      RunUnfolds(r, d, events, page, fds);
      UnknownInEither(Started(r, e), AllStarted(o.rec, o.dir, events[1..], page, fds));
      StepWedgesIffUnknownType(r, d, e, page, fds);
      if Wedged(o.rec) {
        WedgedForever(o.rec, o.dir, events[1..], page, fds);
      } else {
        WedgesIffUnknownType(o.rec, o.dir, events[1..], page, fds);
      }
    }
  }

  /** It happens: one request of type 7 locks an idle page. */
  lemma UnknownTypeWedges(page: nat, fds: seq<int>)
    requires |fds| == WIDTH
    ensures Wedged(RunRecord(IDLE, INITIAL, [Arrival(Request(1, 7, 1, page))], page, fds).rec)
  {
    WedgesIffUnknownType(IDLE, INITIAL, [Arrival(Request(1, 7, 1, page))], page, fds);
  }
}
