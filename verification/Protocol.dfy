/** The per-page coherence protocol as a labelled transition system: the coordinator's sequencer and
    directory, one worker per node, and a FIFO connection in each direction between every node and the
    coordinator. Every interleaving of the five kinds of step is a run. */
module Protocol {
  import opened Wire
  import opened Bitmap
  import opened Directory
  import opened SequencerSpec
  import opened Channels
  import opened PageStatus

  /** What one node knows about the page: its status, whether its copy may be stored to, and the
      request it has outstanding (READ, WRITE or 0). */
  datatype Worker = Worker(status: Status, writable: bool, want: nat)

  /** `up[n]` and `down[n]` hold the message codes in flight to and from the coordinator, oldest first. */
  datatype Sys = Sys(page: nat, rec: Record, dir: Dir, workers: seq<Worker>, up: seq<seq<nat>>, down: seq<seq<nat>>)

  predicate Shape(s: Sys) {
    |s.workers| == |s.up| == |s.down| == WIDTH && s.dir.owner < WIDTH && s.rec.activeNode < WIDTH
  }

  /** Every node is connected; the connection of node n is named n. */
  function NodeFds(): (fds: seq<int>)
    ensures |fds| == WIDTH && forall i :: 0 <= i < WIDTH ==> fds[i] == i
  {
    seq(WIDTH, i => i)
  }

  function RequestOf(page: nat, n: nat, kind: nat): Request {
    Request(n, kind, n, page)
  }

  function Init(page: nat): Sys {
    Sys(page, IDLE, INITIAL, seq(WIDTH, _ => Worker(EMPTY, false, 0)), seq(WIDTH, _ => []), seq(WIDTH, _ => []))
  }

  /** Of a packet in flight, only the message code matters here. */
  function Code(p: Packet): nat {
    p.kind
  }

  // ---- Steps ----

  datatype Step =
    | Issue(node: nat, kind: nat)     // the node faults and sends a request
    | CoordinatorReceives(node: nat)  // the oldest message from the node reaches the coordinator
    | NodeReceives(node: nat)         // the oldest message to the node reaches it

  /** A node asks only when it has no request outstanding, and only for what it lacks. */
  predicate MayIssue(w: Worker, kind: nat) {
    && w.want == 0
    && (kind == READ ==> w.status == EMPTY)
    && (kind == WRITE ==> w.status == EMPTY || (w.status == VALID && !w.writable))
    && (kind == READ || kind == WRITE)
  }

  predicate Enabled(s: Sys, st: Step) {
    && Shape(s)
    && IsNode(st.node)
    && match st
       case Issue(n, kind) => MayIssue(s.workers[n], kind)
       case CoordinatorReceives(n) => s.up[n] != []
       case NodeReceives(n) => s.down[n] != []
  }

  /** network_engine.c:552-586. The packet does not say what it permits: it answers the outstanding request. */
  function Granted(w: Worker): Worker {
    if w.status == VALID then w else Worker(VALID, w.want == WRITE, 0)
  }

  /** network_engine.c:589-607 */
  function Dropped(w: Worker): Worker {
    Worker(EMPTY, false, w.want)
  }

  function Outgoing(s: Sys, o: Outcome): Sys
    requires Shape(s)
  {
    s.(rec := o.rec, dir := o.dir, down := Deliver(s.down, o.sent, Code))
  }

  /** The message that has just been taken off connection n. */
  function TakeUp(s: Sys, n: nat): Sys
    requires Shape(s) && IsNode(n) && s.up[n] != []
  {
    s.(up := s.up[n := s.up[n][1..]])
  }

  function TakeDown(s: Sys, n: nat): Sys
    requires Shape(s) && IsNode(n) && s.down[n] != []
  {
    s.(down := s.down[n := s.down[n][1..]])
  }

  function CoordinatorStep(s: Sys, n: nat): Sys
    requires Shape(s) && IsNode(n) && s.up[n] != []
  {
    var m := s.up[n][0];
    var t := TakeUp(s, n);
    if m == INVALIDATE_ACK
    then Outgoing(t, OnAck(s.rec, s.dir, s.page, NodeFds()))
    else Outgoing(t, OnRequest(s.rec, s.dir, RequestOf(s.page, n, m), NodeFds()))
  }

  function NodeStep(s: Sys, n: nat): Sys
    requires Shape(s) && IsNode(n) && s.down[n] != []
  {
    var m := s.down[n][0];
    var t := TakeDown(s, n);
    if m == SEND_PAGE then t.(workers := s.workers[n := Granted(s.workers[n])])
    else if m == INVALIDATE then
      t.(workers := s.workers[n := Dropped(s.workers[n])], up := s.up[n := s.up[n] + [INVALIDATE_ACK]])
    else t
  }

  function IssueStep(s: Sys, n: nat, kind: nat): Sys
    requires Shape(s) && IsNode(n)
  {
    var w := s.workers[n];
    s.(workers := s.workers[n := Worker(Faulted(w.status, kind == WRITE), w.writable, kind)],
       up := s.up[n := s.up[n] + [kind]])
  }

  function Next(s: Sys, st: Step): Sys
    requires Enabled(s, st)
  {
    match st
    case Issue(n, kind) => IssueStep(s, n, kind)
    case CoordinatorReceives(n) => CoordinatorStep(s, n)
    case NodeReceives(n) => NodeStep(s, n)
  }

  /** The steps can be taken one after the other from s. */
  predicate Runs(s: Sys, steps: seq<Step>)
    decreases |steps|
  {
    steps == [] || (Enabled(s, steps[0]) && Runs(Next(s, steps[0]), steps[1..]))
  }

  function After(s: Sys, steps: seq<Step>): Sys
    requires Runs(s, steps)
    decreases |steps|
  {
    if steps == [] then s else After(Next(s, steps[0]), steps[1..])
  }

  ghost predicate Reachable(s: Sys) {
    Shape(s) && exists page: nat, steps: seq<Step> :: Runs(Init(page), steps) && After(Init(page), steps) == s
  }

  // ---- What a node holds or is about to hold ----

  predicate GrantTo(s: Sys, n: nat)
    requires Shape(s) && n < WIDTH
  {
    SEND_PAGE in s.down[n]
  }

  predicate InvalidateTo(s: Sys, n: nat)
    requires Shape(s) && n < WIDTH
  {
    INVALIDATE in s.down[n]
  }

  predicate AckFrom(s: Sys, n: nat)
    requires Shape(s) && n < WIDTH
  {
    INVALIDATE_ACK in s.up[n]
  }

  predicate RequestFrom(s: Sys, n: nat)
    requires Shape(s) && n < WIDTH
  {
    READ in s.up[n] || WRITE in s.up[n]
  }

  predicate Queued(s: Sys, n: nat) {
    exists i :: 0 <= i < |s.rec.deferred| && s.rec.deferred[i].node == n
  }

  predicate Active(s: Sys, n: nat) {
    s.rec.active && s.rec.activeNode == n
  }

  /** Node n has a copy, or a grant in flight. */
  predicate Live(s: Sys, n: nat)
    requires Shape(s) && n < WIDTH
  {
    Resident(s.workers[n].status) || GrantTo(s, n)
  }

  /** Node n has a write copy, or a write grant in flight. */
  predicate LiveWriter(s: Sys, n: nat)
    requires Shape(s) && n < WIDTH
  {
    s.workers[n].writable || (GrantTo(s, n) && s.workers[n].want == WRITE)
  }

  /** The nodes that still owe the active transaction an acknowledgement: the INVALIDATE or its
      acknowledgement is in flight. */
  function Owing(s: Sys): set<nat>
    requires Shape(s)
  {
    set n: nat | n < WIDTH && (InvalidateTo(s, n) || AckFrom(s, n))
  }
}
