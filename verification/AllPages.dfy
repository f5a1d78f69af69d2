/** All pages at once: a sequencer record, a directory entry and the workers' state per page, but one connection
    in each direction between a node and the coordinator, on which the messages of all pages share one queue.
    What each page sees of it is a run of the single-page system, so its theorems hold for every page. */
module AllPages {
  import opened Wire
  import opened Bitmap
  import opened Directory
  import opened SequencerSpec
  import opened Channels
  import opened PageStatus
  import opened Protocol
  import opened ProtocolInvariant
  import opened ProtocolSafety
  import ProtocolLiveness

  datatype Message = Message(page: nat, code: nat)

  function Tagged(p: Packet): Message {
    Message(p.page, p.kind)
  }

  datatype Cluster = Cluster(recs: seq<Record>, dirs: seq<Dir>, workers: seq<seq<Worker>>,
                             up: seq<seq<Message>>, down: seq<seq<Message>>)

  predicate WellShaped(c: Cluster) {
    && |c.dirs| == |c.workers| == |c.recs| && |c.up| == |c.down| == WIDTH
    && (forall p :: 0 <= p < |c.recs| ==> c.dirs[p].owner < WIDTH && c.recs[p].activeNode < WIDTH && |c.workers[p]| == WIDTH)
  }

  /** The codes of the messages about one page, in order. */
  function Codes(q: seq<Message>, page: nat): seq<nat> {
    if q == [] then [] else (if q[0].page == page then [q[0].code] else []) + Codes(q[1..], page)
  }

  function OfPage(conns: seq<seq<Message>>, page: nat): (r: seq<seq<nat>>)
    ensures |r| == |conns| && forall n :: 0 <= n < |r| ==> r[n] == Codes(conns[n], page)
  {
    seq(|conns|, n requires 0 <= n < |conns| => Codes(conns[n], page))
  }

  /** What page p sees. */
  function View(c: Cluster, p: nat): Sys
    requires WellShaped(c) && p < |c.recs|
  {
    Sys(p, c.recs[p], c.dirs[p], c.workers[p], OfPage(c.up, p), OfPage(c.down, p))
  }

  function Start(pages: nat): Cluster {
    Cluster(seq(pages, _ => IDLE), seq(pages, _ => INITIAL), seq(pages, _ => seq(WIDTH, _ => Worker(EMPTY, false, 0))),
            seq(WIDTH, _ => []), seq(WIDTH, _ => []))
  }

  // ---- Steps ----

  datatype Action =
    | Request(node: nat, page: nat, kind: nat)  // the node faults on the page and sends a request
    | CoordinatorTakes(node: nat)               // the oldest message from the node reaches the coordinator
    | NodeTakes(node: nat)                      // the oldest message to the node reaches it

  predicate CanAct(c: Cluster, a: Action) {
    && WellShaped(c) && IsNode(a.node)
    && match a
       case Request(n, p, kind) => p < |c.recs| && MayIssue(c.workers[p][n], kind)
       case CoordinatorTakes(n) => c.up[n] != [] && c.up[n][0].page < |c.recs|
       case NodeTakes(n) => c.down[n] != [] && c.down[n][0].page < |c.recs|
  }

  /** The page an action is about, and the step that page takes. */
  function PageOf(c: Cluster, a: Action): (p: nat)
    requires CanAct(c, a)
    ensures p < |c.recs|
  {
    match a
    case Request(n, p, kind) => p
    case CoordinatorTakes(n) => c.up[n][0].page
    case NodeTakes(n) => c.down[n][0].page
  }

  function StepOf(a: Action): Step {
    match a
    case Request(n, p, kind) => Issue(n, kind)
    case CoordinatorTakes(n) => CoordinatorReceives(n)
    case NodeTakes(n) => NodeReceives(n)
  }

  function Answer(c: Cluster, n: nat): Outcome
    requires CanAct(c, CoordinatorTakes(n))
  {
    var m := c.up[n][0];
    if m.code == INVALIDATE_ACK then OnAck(c.recs[m.page], c.dirs[m.page], m.page, NodeFds())
    else OnRequest(c.recs[m.page], c.dirs[m.page], RequestOf(m.page, n, m.code), NodeFds())
  }

  function Act(c: Cluster, a: Action): Cluster
    requires CanAct(c, a)
  {
    match a
    case Request(n, p, kind) =>
      var w := c.workers[p][n];
      c.(workers := c.workers[p := c.workers[p][n := Worker(Faulted(w.status, kind == WRITE), w.writable, kind)]],
         up := c.up[n := c.up[n] + [Message(p, kind)]])
    case CoordinatorTakes(n) =>
      var p, o := c.up[n][0].page, Answer(c, n);
      c.(recs := c.recs[p := o.rec], dirs := c.dirs[p := o.dir],
         up := c.up[n := c.up[n][1..]], down := Deliver(c.down, o.sent, Tagged))
    case NodeTakes(n) =>
      var m := c.down[n][0];
      var w := c.workers[m.page][n];
      var t := c.(down := c.down[n := c.down[n][1..]]);
      if m.code == SEND_PAGE then t.(workers := c.workers[m.page := c.workers[m.page][n := Granted(w)]])
      else if m.code == INVALIDATE then
        t.(workers := c.workers[m.page := c.workers[m.page][n := Dropped(w)]],
           up := c.up[n := c.up[n] + [Message(m.page, INVALIDATE_ACK)]])
      else t
  }

  // ---- One page's share of the connections ----

  lemma {:induction false} CodesAppend(q: seq<Message>, m: Message, page: nat)
    ensures Codes(q + [m], page) == Codes(q, page) + if m.page == page then [m.code] else []
    decreases |q|
  {
    var all := q + [m];
    if q == [] {
      assert all[1..] == [];
    } else {
      var first := if q[0].page == page then [q[0].code] else [];
      CodesAppend(q[1..], m, page);
      assert all[0] == q[0] && all[1..] == q[1..] + [m];
      assert Codes(all, page) == first + Codes(q[1..] + [m], page);
    }
  }

  /** The oldest message of a connection is the oldest of its page, and no other page sees it leave. */
  lemma CodesHead(q: seq<Message>, page: nat)
    requires q != []
    ensures q[0].page == page ==> Codes(q, page) != [] && Codes(q, page)[0] == q[0].code && Codes(q, page)[1..] == Codes(q[1..], page)
    ensures q[0].page != page ==> Codes(q, page) == Codes(q[1..], page)
  {
  }

  /** A message joins a connection. */
  lemma OfPageAppend(conns: seq<seq<Message>>, n: nat, m: Message, page: nat)
    requires n < |conns|
    ensures OfPage(conns[n := conns[n] + [m]], page)
         == if m.page == page then OfPage(conns, page)[n := OfPage(conns, page)[n] + [m.code]] else OfPage(conns, page)
  {
    CodesAppend(conns[n], m, page);
    assert Codes(conns[n], page) + [] == Codes(conns[n], page);
  }

  /** The oldest message leaves a connection. */
  lemma OfPagePop(conns: seq<seq<Message>>, n: nat, page: nat)
    requires n < |conns| && conns[n] != []
    ensures conns[n][0].page == page ==>
              OfPage(conns, page)[n] != [] && OfPage(conns, page)[n][0] == conns[n][0].code
    ensures OfPage(conns[n := conns[n][1..]], page)
         == if conns[n][0].page == page then OfPage(conns, page)[n := OfPage(conns, page)[n][1..]] else OfPage(conns, page)
  {
    CodesHead(conns[n], page);
  }

  predicate OnPage(sent: seq<Sent>, page: nat) {
    forall x <- sent :: x.packet.page == page
  }

  /** Packets about one page are delivered as in the single-page system, and no other page sees them. */
  lemma {:induction false} DeliverTagged(conns: seq<seq<Message>>, sent: seq<Sent>, q: nat, page: nat)
    requires |conns| == WIDTH && OnPage(sent, q)
    ensures OfPage(Deliver(conns, sent, Tagged), page)
         == if page == q then Deliver(OfPage(conns, page), sent, Code) else OfPage(conns, page)
    decreases |sent|
  {
    if sent != [] {
      var fd, p := sent[0].fd, sent[0].packet;
      assert p.page == q;
      if 0 <= fd < WIDTH {
        OfPageAppend(conns, fd, Tagged(p), page);
        DeliverTagged(conns[fd := conns[fd] + [Tagged(p)]], sent[1..], q, page);
      } else {
        DeliverTagged(conns, sent[1..], q, page);
      }
    }
  }

  lemma {:induction false} BroadcastOnPage(targets: set<nat>, packet: Packet, fds: seq<int>, i: nat)
    requires i <= WIDTH && |fds| == WIDTH
    ensures OnPage(Broadcast(targets, packet, fds, i), packet.page)
    decreases |fds| - i
  {
    if i < WIDTH {
      BroadcastOnPage(targets, packet, fds, i + 1);
    }
  }

  lemma ExecuteOnPage(r: Record, d: Dir, q: SequencerSpec.Request, fds: seq<int>)
    requires d.owner < WIDTH && |fds| == WIDTH
    ensures OnPage(Execute(r, d, q, fds).sent, q.page)
  {
    BroadcastOnPage(InvalidateSet(d, q.node), InvalidatePacket(q.page, 0), fds, 0);
  }

  /** The coordinator answers a message about a page with packets about that page. */
  lemma AnswerOnPage(c: Cluster, n: nat)
    requires CanAct(c, CoordinatorTakes(n))
    requires forall q <- c.recs[c.up[n][0].page].deferred :: q.page == c.up[n][0].page
    ensures OnPage(Answer(c, n).sent, c.up[n][0].page)
  {
    var m := c.up[n][0];
    var r, d := c.recs[m.page], c.dirs[m.page];
    if m.code != INVALIDATE_ACK {
      ExecuteOnPage(r, d, RequestOf(m.page, n, m.code), NodeFds());
    } else if r.deferred != [] {
      ExecuteOnPage(Completed(r).(deferred := r.deferred[1..]), d, r.deferred[0], NodeFds());
    }
  }

  // ---- Each page takes a step of its own, or none ----

  /** Page p's view after the action: a step of the single-page system if the action is about p, nothing otherwise. */
  ghost predicate Projects(c: Cluster, a: Action, p: nat)
    requires CanAct(c, a) && p < |c.recs|
  {
    var t := Act(c, a);
    && WellShaped(t) && |t.recs| == |c.recs|
    && (p != PageOf(c, a) ==> View(t, p) == View(c, p))
    && (p == PageOf(c, a) ==> Enabled(View(c, p), StepOf(a)) && View(t, p) == Next(View(c, p), StepOf(a)))
  }

  lemma RequestProjects(c: Cluster, a: Action, p: nat)
    requires CanAct(c, a) && a.Request? && p < |c.recs|
    ensures Projects(c, a, p)
  {
    OfPageAppend(c.up, a.node, Message(a.page, a.kind), p);
  }

  lemma CoordinatorProjects(c: Cluster, n: nat, p: nat)
    requires CanAct(c, CoordinatorTakes(n)) && p < |c.recs|
    requires forall q <- c.recs[c.up[n][0].page].deferred :: q.page == c.up[n][0].page
    requires var o := Answer(c, n); o.dir.owner < WIDTH && o.rec.activeNode < WIDTH
    ensures Projects(c, CoordinatorTakes(n), p)
  {
    OfPagePop(c.up, n, p);
    AnswerOnPage(c, n);
    DeliverTagged(c.down, Answer(c, n).sent, c.up[n][0].page, p);
  }

  lemma NodeProjects(c: Cluster, n: nat, p: nat)
    requires CanAct(c, NodeTakes(n)) && p < |c.recs|
    ensures Projects(c, NodeTakes(n), p)
  {
    OfPagePop(c.down, n, p);
    OfPageAppend(c.up, n, Message(c.down[n][0].page, INVALIDATE_ACK), p);
  }

  /** Every page is in a state that the single-page system reaches. */
  ghost predicate AllReachable(c: Cluster) {
    WellShaped(c) && forall p: nat :: p < |c.recs| ==> Reachable(View(c, p))
  }

  /** In these states the coordinator's answer keeps the shape, and deferred requests are the page's own. */
  lemma AnswerShape(c: Cluster, n: nat)
    requires AllReachable(c) && CanAct(c, CoordinatorTakes(n))
    ensures var o := Answer(c, n); o.dir.owner < WIDTH && o.rec.activeNode < WIDTH
    ensures forall q <- c.recs[c.up[n][0].page].deferred :: q.page == c.up[n][0].page
  {
    var p := c.up[n][0].page;
    var s := View(c, p);
    ReachableInv(s);
    OfPagePop(c.up, n, p);
    assert Enabled(s, CoordinatorReceives(n));
    StepKeeps(s, CoordinatorReceives(n));
    assert Next(s, CoordinatorReceives(n)).rec == Answer(c, n).rec && Next(s, CoordinatorReceives(n)).dir == Answer(c, n).dir;
  }

  lemma ActionProjects(c: Cluster, a: Action, p: nat)
    requires AllReachable(c) && CanAct(c, a) && p < |c.recs|
    ensures Projects(c, a, p)
  {
    match a
    case Request(n, page, kind) => RequestProjects(c, a, p);
    case CoordinatorTakes(n) =>
      AnswerShape(c, n);
      CoordinatorProjects(c, n, p);
    case NodeTakes(n) => NodeProjects(c, n, p);
  }

  lemma ActionKeepsReachable(c: Cluster, a: Action)
    requires AllReachable(c) && CanAct(c, a)
    ensures AllReachable(Act(c, a)) && |Act(c, a).recs| == |c.recs|
  {
    var t := Act(c, a);
    ActionProjects(c, a, PageOf(c, a));
    forall p: nat | p < |t.recs|
      ensures Reachable(View(t, p))
    {
      ActionProjects(c, a, p);
      if p == PageOf(c, a) {
        ReachableStep(View(c, p), StepOf(a));
      }
    }
  }

  // ---- Runs ----

  predicate Possible(c: Cluster, actions: seq<Action>)
    decreases |actions|
  {
    actions == [] || (CanAct(c, actions[0]) && Possible(Act(c, actions[0]), actions[1..]))
  }

  function Result(c: Cluster, actions: seq<Action>): Cluster
    requires Possible(c, actions)
    decreases |actions|
  {
    if actions == [] then c else Result(Act(c, actions[0]), actions[1..])
  }

  lemma StartReachable(pages: nat)
    ensures AllReachable(Start(pages))
  {
    var c := Start(pages);
    forall p: nat | p < |c.recs|
      ensures Reachable(View(c, p))
    {
      assert View(c, p) == Init(p);
      ProtocolLiveness.InitReachable(p);
    }
  }

  lemma {:induction false} RunKeepsReachable(c: Cluster, actions: seq<Action>)
    requires AllReachable(c) && Possible(c, actions)
    ensures AllReachable(Result(c, actions)) && |Result(c, actions).recs| == |c.recs|
    decreases |actions|
  {
    if actions != [] {
      ActionKeepsReachable(c, actions[0]);
      RunKeepsReachable(Act(c, actions[0]), actions[1..]);
    }
  }

  /** Over every interleaving of the messages of all pages on the shared connections, every page is at every time
      in a state that the single-page system reaches. */
  lemma EveryPageRefines(pages: nat, actions: seq<Action>, p: nat)
    requires Possible(Start(pages), actions) && p < pages
    ensures var c := Result(Start(pages), actions); WellShaped(c) && |c.recs| == pages && Reachable(View(c, p))
  {
    StartReachable(pages);
    RunKeepsReachable(Start(pages), actions);
  }

  /** So on every page, a node that may write, or is about to, is the only one with a copy or a grant. */
  lemma SingleWriterOnEveryPage(pages: nat, actions: seq<Action>, p: nat, writer: nat, other: nat)
    requires Possible(Start(pages), actions) && p < pages && IsNode(writer) && IsNode(other) && writer != other
    ensures var c := Result(Start(pages), actions);
      && WellShaped(c) && |c.recs| == pages
      && (LiveWriter(View(c, p), writer) ==>
            !Resident(c.workers[p][other].status) && Message(p, SEND_PAGE) !in c.down[other])
  {
    EveryPageRefines(pages, actions, p);
    var c := Result(Start(pages), actions);
    if LiveWriter(View(c, p), writer) {
      SingleWriterManyReaders(View(c, p), writer, other);
      CodesMember(c.down[other], p, SEND_PAGE);
    }
  }

  lemma {:induction false} CodesMember(q: seq<Message>, page: nat, code: nat)
    ensures Message(page, code) in q <==> code in Codes(q, page)
    decreases |q|
  {
    if q != [] {
      CodesMember(q[1..], page, code);
    }
  }

  // ---- Progress ----

  function Sum(xs: seq<nat>): nat {
    if xs == [] then 0 else xs[0] + Sum(xs[1..])
  }

  lemma {:induction false} OneLess(xs: seq<nat>, ys: seq<nat>, i: nat)
    requires |xs| == |ys| && i < |xs| && ys[i] < xs[i] && forall j :: 0 <= j < |xs| && j != i ==> ys[j] == xs[j]
    ensures Sum(ys) < Sum(xs)
    decreases |xs|
  {
    if i == 0 {
      assert ys[1..] == xs[1..];
    } else {
      OneLess(xs[1..], ys[1..], i - 1);
    }
  }

  function Ranks(c: Cluster): (r: seq<nat>)
    requires WellShaped(c)
    ensures |r| == |c.recs| && forall p :: 0 <= p < |r| ==> r[p] == ProtocolLiveness.Rank(View(c, p))
  {
    seq(|c.recs|, p requires 0 <= p < |c.recs| => ProtocolLiveness.Rank(View(c, p)))
  }

  lemma DeliveryLowersPage(c: Cluster, a: Action, p: nat)
    requires AllReachable(c) && CanAct(c, a) && !a.Request? && p < |c.recs|
    ensures WellShaped(Act(c, a)) && |Act(c, a).recs| == |c.recs|
    ensures p == PageOf(c, a) ==> ProtocolLiveness.Rank(View(Act(c, a), p)) < ProtocolLiveness.Rank(View(c, p))
    ensures p != PageOf(c, a) ==> ProtocolLiveness.Rank(View(Act(c, a), p)) == ProtocolLiveness.Rank(View(c, p))
  {
    ActionProjects(c, a, p);
    if p == PageOf(c, a) {
      ReachableInv(View(c, p));
      ProtocolLiveness.DeliveryLowersRank(View(c, p), StepOf(a));
    }
  }

  /** Every delivery, whatever page it is about, brings the whole cluster closer to rest. */
  lemma DeliveryLowersTotal(c: Cluster, a: Action)
    requires AllReachable(c) && CanAct(c, a) && !a.Request?
    ensures WellShaped(Act(c, a)) && Sum(Ranks(Act(c, a))) < Sum(Ranks(c))
  {
    var t, q := Act(c, a), PageOf(c, a);
    DeliveryLowersPage(c, a, q);
    forall p | 0 <= p < |c.recs| && p != q
      ensures Ranks(t)[p] == Ranks(c)[p]
    {
      DeliveryLowersPage(c, a, p);
    }
    OneLess(Ranks(c), Ranks(t), q);
  }

  /** Without new requests every run of the whole cluster ends. */
  lemma {:induction false} DeliveriesEnd(c: Cluster, actions: seq<Action>)
    requires AllReachable(c) && Possible(c, actions) && forall a <- actions :: !a.Request?
    ensures |actions| <= Sum(Ranks(c))
    decreases |actions|
  {
    if actions != [] {
      ActionKeepsReachable(c, actions[0]);
      DeliveryLowersTotal(c, actions[0]);
      DeliveriesEnd(Act(c, actions[0]), actions[1..]);
    }
  }
}
