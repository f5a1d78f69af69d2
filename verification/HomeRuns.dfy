/** Runs of the live path with page contents: the home node, its workers, and the packets between them.
    Transactions on the page are serialized: a node faults only when no earlier fault is still being
    served. Within a transaction the messages interleave freely. */
module HomeRuns {
  import opened Wire
  import opened Bitmap
  import opened Directory
  import opened PageStatus
  import opened Channels
  import opened HomeSpec

  /** The fault being served. */
  datatype Txn = Idle | Serving(node: nat, isWrite: bool)

  /** `latest` is the last value stored to the page, all zeros before the first store. The entries of the
      home node in `copies`, `toNode` and `toHome` are unused. */
  datatype Sys = Sys(index: nat, home: Home, copies: seq<Copy>, toNode: seq<seq<Packet>>, toHome: seq<seq<Packet>>,
                     latest: Page, txn: Txn)

  predicate Shape(s: Sys) {
    |s.copies| == |s.toNode| == |s.toHome| == WIDTH && IsNode(s.home.me) && s.home.dir.owner < WIDTH
  }

  /** Every worker n is connected, on connection n; the home node has no connection to itself. */
  function HomeFds(me: nat): (fds: seq<int>)
    ensures |fds| == WIDTH
    ensures forall i :: 0 <= i < WIDTH ==> fds[i] == if i == me then -1 else i
  {
    seq(WIDTH, i => if i == me then -1 else i)
  }

  function StatusOf(s: Sys, n: nat): Status
    requires Shape(s) && n < WIDTH
  {
    if n == s.home.me then s.home.status else s.copies[n].status
  }

  function PageOf(s: Sys, n: nat): Page
    requires Shape(s) && n < WIDTH
  {
    if n == s.home.me then s.home.page else s.copies[n].page
  }

  function Init(index: nat, me: nat): Sys
    requires IsNode(me)
  {
    Sys(index, Home(me, EMPTY, ZeroPage(), INITIAL, Pending(0, 0, 0, 0, ZeroPage())),
        seq(WIDTH, _ => Copy(EMPTY, ZeroPage())), seq(WIDTH, _ => []), seq(WIDTH, _ => []), ZeroPage(), Idle)
  }

  /** Packets are kept whole. */
  function Whole(p: Packet): Packet {
    p
  }

  // ---- Steps ----

  datatype Step =
    | Fault(node: nat, isWrite: bool)  // a load or store of the node faults
    | Leftover(node: nat, isWrite: bool)  // the home node pops a request for a page that is there by now
    | HomeReceives(node: nat)          // the oldest packet from the node reaches the home node
    | NodeReceives(node: nat)          // the oldest packet to the node reaches it
    | Store(node: nat, value: Page)    // the owner stores to its copy

  predicate Owns(s: Sys, n: nat) {
    s.home.dir.state == MODIFIED && s.home.dir.owner == n
  }

  /** A node faults on a read when it has no copy, on a write when it is not the owner. */
  predicate MayFault(s: Sys, n: nat, isWrite: bool)
    requires Shape(s) && n < WIDTH
  {
    && s.txn == Idle
    && (StatusOf(s, n) == EMPTY || (isWrite && StatusOf(s, n) == VALID))
    && (isWrite ==> !Owns(s, n))
  }

  predicate Enabled(s: Sys, st: Step) {
    && Shape(s)
    && IsNode(st.node)
    && match st
       case Fault(n, isWrite) => MayFault(s, n, isWrite)
       case Leftover(n, isWrite) =>
         n == s.home.me && Resident(s.home.status) && (isWrite ==> s.txn == Idle && s.home.status == VALID)
       case HomeReceives(n) => n != s.home.me && s.toHome[n] != []
       case NodeReceives(n) => n != s.home.me && s.toNode[n] != []
       case Store(n, v) => s.txn == Idle && Owns(s, n)
  }

  /** The transaction is over when the faulting node has its page and the slot is free. */
  function Settled(s: Sys): Sys
    requires Shape(s)
  {
    if s.txn.Serving? && s.txn.node < WIDTH && StatusOf(s, s.txn.node) == VALID && s.home.pending.requester == 0
    then s.(txn := Idle) else s
  }

  function AfterReply(s: Sys, r: Reply): Sys
    requires Shape(s)
  {
    s.(home := r.home, toNode := Deliver(s.toNode, r.sent, Whole))
  }

  function FaultStep(s: Sys, n: nat, isWrite: bool): Sys
    requires Shape(s) && IsNode(n)
  {
    var faulted := Faulted(StatusOf(s, n), isWrite);
    var kind := if isWrite then WRITE else READ;
    var t := s.(txn := Serving(n, isWrite));
    if n == s.home.me then
      Settled(AfterReply(t, LocalRequest(s.home.(status := faulted), isWrite, s.index, HomeFds(n))))
    else
      t.(copies := s.copies[n := s.copies[n].(status := faulted)],
         toHome := s.toHome[n := s.toHome[n] + [Packet(kind, s.index, n, ZeroPage())]])
  }

  /** Two threads of the home node faulted, and the page came with the answer to the first. */
  function LeftoverStep(s: Sys, isWrite: bool): Sys
    requires Shape(s)
  {
    var r := LocalRequest(s.home, isWrite, s.index, HomeFds(s.home.me));
    if isWrite then Settled(AfterReply(s.(txn := Serving(s.home.me, true)), r)) else AfterReply(s, r)
  }

  /** The home node's answer to a packet from node n. */
  function HomeReply(s: Sys, n: nat, p: Packet): Reply
    requires Shape(s) && n < WIDTH
  {
    var fds := HomeFds(s.home.me);
    if p.kind == READ || p.kind == WRITE then RemoteRequest(s.home, n, p.kind, n, s.index, fds)
    else if p.kind == SEND_PAGE then PageArrives(s.home, p, s.index, fds)
    else if p.kind == INVALIDATE_ACK then AckArrives(s.home, s.index)
    else Reply(s.home, [])
  }

  function HomeStep(s: Sys, n: nat): Sys
    requires Shape(s) && IsNode(n) && s.toHome[n] != []
  {
    var t := s.(toHome := s.toHome[n := s.toHome[n][1..]]);
    var u := AfterReply(t, HomeReply(s, n, s.toHome[n][0]));
    if Shape(u) then Settled(u) else u
  }

  function NodeStep(s: Sys, n: nat): Sys
    requires Shape(s) && IsNode(n) && s.toNode[n] != []
  {
    var p, c := s.toNode[n][0], s.copies[n];
    var t := s.(toNode := s.toNode[n := s.toNode[n][1..]]);
    if p.kind == SEND_PAGE then
      Settled(t.(copies := s.copies[n := WorkerAccepts(c, p.payload)]))
    else if p.kind == INVALIDATE then
      t.(copies := s.copies[n := WorkerDrops(c)],
         toHome := s.toHome[n := s.toHome[n] + [Packet(INVALIDATE_ACK, s.index, n, ZeroPage())]])
    else if p.kind == READ then
      t.(toHome := s.toHome[n := s.toHome[n] + [PagePacket(s.index, n, WorkerServes(c))]])
    else t
  }

  function StoreStep(s: Sys, n: nat, v: Page): Sys
    requires Shape(s) && IsNode(n)
  {
    if n == s.home.me then s.(home := s.home.(page := v), latest := v)
    else s.(copies := s.copies[n := s.copies[n].(page := v)], latest := v)
  }

  function Next(s: Sys, st: Step): Sys
    requires Enabled(s, st)
  {
    match st
    case Fault(n, isWrite) => FaultStep(s, n, isWrite)
    case Leftover(n, isWrite) => LeftoverStep(s, isWrite)
    case HomeReceives(n) => HomeStep(s, n)
    case NodeReceives(n) => NodeStep(s, n)
    case Store(n, v) => StoreStep(s, n, v)
  }

  predicate Runs(s: Sys, steps: seq<Step>)
    decreases |steps|
  {
    steps == [] || (Enabled(s, steps[0]) && Runs(Next(s, steps[0]), steps[1..]))
  }

  function After(s: Sys, steps: seq<Step>): Sys
    requires Runs(s, steps)
    decreases |steps|
  {
    if steps == [] then s else After(Next(s, steps[0]), steps[1..])
  }

  // ---- The invariant ----

  /** Nothing is in flight between node m and the home node. */
  predicate Silent(s: Sys, m: nat)
    requires Shape(s) && m < WIDTH
  {
    s.toNode[m] == [] && s.toHome[m] == []
  }

  predicate SlotFree(s: Sys) {
    s.home.pending.requester == 0 && s.home.pending.expectedAcks == 0
  }

  /** The home node and the all-zero start: whoever asks can be served the latest value. */
  predicate Backed(s: Sys) {
    && (s.home.dir.state == SHARED ==> s.home.me in s.home.dir.sharers || s.latest == ZeroPage())
    && (s.home.dir.state == INVALID ==> s.latest == ZeroPage())
  }

  /** Node m has a copy exactly when it is a holder, and its copy is the latest value. */
  predicate CopyOk(s: Sys, m: nat)
    requires Shape(s) && m < WIDTH
  {
    && (StatusOf(s, m) == VALID || StatusOf(s, m) == EMPTY)
    && (StatusOf(s, m) == VALID <==> m in Holders(s.home.dir))
    && (StatusOf(s, m) == VALID ==> PageOf(s, m) == s.latest)
  }

  /** The faulting node is waiting, with the latest value in hand if it only asked to write; the home node also
      keeps its copy while it serves a left-over write. */
  predicate Waiting(s: Sys, n: nat, isWrite: bool)
    requires Shape(s) && n < WIDTH
  {
    || StatusOf(s, n) == PENDING
    || (isWrite && (StatusOf(s, n) == WRITE_PENDING || (n == s.home.me && StatusOf(s, n) == VALID)) && PageOf(s, n) == s.latest)
  }

  /** No transaction: no packet in flight, every copy is the latest value and known to the directory. */
  ghost predicate AtRest(s: Sys)
    requires Shape(s)
  {
    && SlotFree(s)
    && forall m: nat :: IsNode(m) ==> Silent(s, m) && CopyOk(s, m)
  }

  /** The request of node n is on its way to the home node. */
  ghost predicate Requesting(s: Sys, n: nat, isWrite: bool)
    requires Shape(s) && IsNode(n)
  {
    && SlotFree(s)
    && n != s.home.me
    && s.toNode[n] == [] && s.toHome[n] == [Packet(if isWrite then WRITE else READ, s.index, n, ZeroPage())]
    && Waiting(s, n, isWrite)
    && (StatusOf(s, n) == WRITE_PENDING <==> n in Holders(s.home.dir))
    && !Owns(s, n)
    && forall m: nat :: IsNode(m) && m != n ==> Silent(s, m) && CopyOk(s, m)
  }

  /** The home node is fetching the page from its owner. */
  ghost predicate Fetching(s: Sys, n: nat, isWrite: bool)
    requires Shape(s) && IsNode(n)
  {
    var o, p := s.home.dir.owner, s.home.pending;
    && s.home.dir.state == MODIFIED && o != s.home.me && o != n
    && p.requester == n && p.kind == (if isWrite then WRITE else READ) && p.expectedAcks == 0
    && p.clientFd == (if n == s.home.me then -1 else n)
    && StatusOf(s, n) == PENDING
    && Silent(s, n)
    && CopyOk(s, o)
    && ((s.toNode[o] == [FetchPacket(s.index, s.home.me)] && s.toHome[o] == [])
        || (s.toNode[o] == [] && s.toHome[o] == [PagePacket(s.index, o, s.latest)]))
    && forall m: nat :: IsNode(m) && m != n && m != o ==> Silent(s, m) && CopyOk(s, m)
  }

  predicate Owes(s: Sys, m: nat)
    requires Shape(s) && m < WIDTH
  {
    s.toNode[m] != [] || s.toHome[m] != []
  }

  function Owing(s: Sys): set<nat>
    requires Shape(s)
  {
    set m: nat | m < WIDTH && Owes(s, m)
  }

  /** Node m has been told to drop its copy, has answered, or has no copy. */
  predicate Dropping(s: Sys, m: nat)
    requires Shape(s) && m < WIDTH
  {
    || (StatusOf(s, m) == EMPTY && Silent(s, m))
    || (StatusOf(s, m) == EMPTY && s.toNode[m] == [] && s.toHome[m] == [Packet(INVALIDATE_ACK, s.index, m, ZeroPage())])
    || (StatusOf(s, m) == VALID && PageOf(s, m) == s.latest && m != s.home.me
        && s.toNode[m] == [InvalidatePacket(s.index)] && s.toHome[m] == [])
  }

  /** The home node is collecting acknowledgements for node n's write; the latest value is safe in the slot. */
  ghost predicate Collecting(s: Sys, n: nat)
    requires Shape(s) && IsNode(n)
  {
    var p := s.home.pending;
    && s.home.dir == ToModified(s.home.dir, n)
    && p.requester == n && p.clientFd == (if n == s.home.me then -1 else n)
    && p.expectedAcks > 0 && p.expectedAcks == |Owing(s)|
    && Waiting(s, n, true) && Silent(s, n)
    && (p.payload == s.latest || (n == s.home.me && StatusOf(s, n) == WRITE_PENDING))
    && s.toNode[0] == [] && s.toHome[0] == []
    && forall m: nat :: IsNode(m) && m != n ==> Dropping(s, m)
  }

  /** The page is on its way to the faulting node. */
  ghost predicate Granting(s: Sys, n: nat, isWrite: bool)
    requires Shape(s) && IsNode(n)
  {
    && SlotFree(s)
    && n != s.home.me
    && s.toHome[n] == [] && |s.toNode[n]| == 1
    && s.toNode[n][0].kind == SEND_PAGE && s.toNode[n][0].page == s.index && s.toNode[n][0].payload == s.latest
    && Waiting(s, n, isWrite)
    && n in Holders(s.home.dir)
    && (isWrite ==> Owns(s, n))
    && forall m: nat :: IsNode(m) && m != n ==> Silent(s, m) && CopyOk(s, m)
  }

  /** What holds of every state apart from Backed. */
  ghost predicate Coherent(s: Sys) {
    && Shape(s)
    && WellFormed(s.home.dir)
    && s.toNode[0] == [] && s.toHome[0] == []
    && Silent(s, s.home.me)
    && match s.txn
       case Idle => AtRest(s)
       case Serving(n, isWrite) =>
         && IsNode(n)
         && (Requesting(s, n, isWrite) || Fetching(s, n, isWrite) || (isWrite && Collecting(s, n)) || Granting(s, n, isWrite))
  }

  /** A fault that the home node can serve without losing the latest value or a stale copy:
      not a write of the home node itself while others share the page and it has no copy, and not a
      worker's read of a page that another worker owns, unless the page is still all zeros. */
  predicate Safe(s: Sys, n: nat, isWrite: bool) {
    var d := s.home.dir;
    && !(n == s.home.me && isWrite && d.state == SHARED && s.home.me !in d.sharers)
    && !(n != s.home.me && !isWrite && d.state == MODIFIED && d.owner != s.home.me && s.latest != ZeroPage())
  }

  /** A left-over write of the home node that cannot lose the latest value: nobody has to be told, or what the slot
      holds from an earlier transaction happens to be that value. */
  predicate SafeLeftover(s: Sys)
    requires Shape(s)
  {
    !NeedsAcks(s.home, s.home.me, HomeFds(s.home.me)) || s.home.pending.payload == s.latest
  }

  /** The fault being served was safe. */
  predicate ServingSafely(s: Sys) {
    s.txn.Serving? && !s.txn.isWrite && s.txn.node != s.home.me && s.home.dir.state == MODIFIED && s.home.dir.owner != s.home.me
    ==> s.latest == ZeroPage()
  }

  ghost predicate Inv(s: Sys) {
    Coherent(s) && Backed(s) && ServingSafely(s)
  }
}
