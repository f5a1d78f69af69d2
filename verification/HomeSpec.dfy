/** What the home node does with one page in network_engine.c, over values: its own copy, its directory
    entry and its single pending slot; and what a worker does with its copy. */
module HomeSpec {
  import opened Wire
  import opened Bitmap
  import opened Directory
  import opened PageStatus
  import SequencerSpec

  /** coord_pending_t; requester 0 means the slot is free. */
  datatype Pending = Pending(requester: nat, kind: nat, clientFd: int, expectedAcks: nat, payload: Page)

  /** The home node (local_node_id `me`): page table entry, page contents, directory entry, pending slot. */
  datatype Home = Home(me: nat, status: Status, page: Page, dir: Dir, pending: Pending)

  datatype Reply = Reply(home: Home, sent: seq<Sent>)

  predicate Sane(h: Home, fds: seq<int>) {
    IsNode(h.me) && |fds| == WIDTH && h.dir.owner < WIDTH
  }

  function PagePacket(index: nat, sender: nat, payload: Page): Packet {
    Packet(SEND_PAGE, index, sender, payload)
  }

  /** The home node asks an owner for its copy with a READ request of its own. */
  function FetchPacket(index: nat, sender: nat): Packet {
    Packet(READ, index, sender, ZeroPage())
  }

  function InvalidatePacket(index: nat): Packet {
    SequencerSpec.InvalidatePacket(index, 0)
  }

  function Broadcast(targets: set<nat>, index: nat, fds: seq<int>): seq<Sent>
    requires |fds| == WIDTH
  {
    SequencerSpec.Broadcast(targets, InvalidatePacket(index), fds, 0)
  }

  function Connected(targets: set<nat>, fds: seq<int>): set<nat> {
    set n | n in targets && n < |fds| && fds[n] != -1
  }

  /** UFFDIO_COPY of the payload. */
  function Install(h: Home, payload: Page): Home {
    h.(status := VALID, page := payload)
  }

  /** invalidate_local_page_copy: MADV_DONTNEED drops the contents. */
  function Drop(h: Home): Home {
    h.(status := EMPTY, page := ZeroPage())
  }

  /** Make `writer` the owner and either collect acknowledgements from the other connected holders, with
      the payload kept for the end, or call `done` at once. */
  function StartCollecting(h: Home, writer: nat, clientFd: int, payload: Page, index: nat, fds: seq<int>): Reply
    requires Sane(h, fds)
  {
    var acks := Connected(InvalidateSet(h.dir, writer) - {h.me}, fds);
    var owned := h.(dir := ToModified(h.dir, writer));
    Reply(owned.(pending := Pending(writer, WRITE, clientFd, |acks|, payload)), Broadcast(acks, index, fds))
  }

  predicate NeedsAcks(h: Home, writer: nat, fds: seq<int>) {
    Connected(InvalidateSet(h.dir, writer) - {h.me}, fds) != {}
  }

  /** Lines 300-403: a fault of the home node itself, taken from the local queue. */
  function LocalRequest(h: Home, isWrite: bool, index: nat, fds: seq<int>): Reply
    requires Sane(h, fds)
  {
    if Resident(h.status) then
      if !isWrite then Reply(h, [])
      else if NeedsAcks(h, h.me, fds) then StartCollecting(h, h.me, -1, h.pending.payload, index, fds)
      else Reply(h.(dir := ToModified(h.dir, h.me), status := VALID), [])
    else if h.dir.owner != 0 && fds[h.dir.owner] != -1 then
      Reply(h.(pending := Pending(h.me, if isWrite then WRITE else READ, -1, 0, h.pending.payload)),
            Send(fds[h.dir.owner], FetchPacket(index, h.me)))
    else
      Reply(Install(h, ZeroPage()).(dir := if isWrite then ToModified(h.dir, h.me) else ToShared(h.dir, h.me)), [])
  }

  /** node_fds after a packet from node n came in on connection fd; ids above 63 are not recorded. */
  function Connect(fds: seq<int>, n: nat, fd: int): seq<int> {
    if n < |fds| then fds[n := fd] else fds
  }

  /** The home node has no copy and forwards the request of node n to the owner. */
  predicate AsksOwner(h: Home, n: nat, fds: seq<int>)
    requires Sane(h, fds)
  {
    h.status != VALID && h.dir.owner != 0 && fds[h.dir.owner] != -1 && h.dir.owner != n
  }

  /** Lines 655-795: a READ or WRITE request from node n on connection fd. */
  function RemoteRequest(h: Home, n: nat, kind: nat, fd: int, index: nat, fds: seq<int>): Reply
    requires Sane(h, fds)
  {
    if h.status == VALID then
      if kind == WRITE then
        if NeedsAcks(h, n, fds) then StartCollecting(Drop(h), n, fd, h.page, index, fds)
        else Reply(Drop(h).(dir := ToModified(h.dir, n)), Send(fd, PagePacket(index, h.me, h.page)))
      else
        Reply(h.(dir := ToShared(h.dir, n)), Send(fd, PagePacket(index, h.me, h.page)))
    else if AsksOwner(h, n, fds) then
      Reply(h.(pending := Pending(n, kind, fd, 0, h.pending.payload)),
            Send(fds[h.dir.owner], FetchPacket(index, h.me)))
    else if kind == WRITE then
      var g := if h.me in InvalidateSet(h.dir, n) && h.me != n then Drop(h) else h;
      if NeedsAcks(h, n, fds) then StartCollecting(g, n, fd, ZeroPage(), index, fds)
      else Reply(g.(dir := ToModified(h.dir, n)), Send(fd, PagePacket(index, h.me, ZeroPage())))
    else
      Reply(h.(dir := ToShared(h.dir, n)), Send(fd, PagePacket(index, h.me, ZeroPage())))
  }

  /** Lines 552-586: a page arrives at a node that is waiting for one. The payload is discarded when the
      node already has the contents and only asked to write. */
  function Accept(status: Status, page: Page, payload: Page): (Status, Page) {
    if status == VALID then (status, page)
    else if status == WRITE_PENDING then (VALID, page)
    else (VALID, payload)
  }

  /** Lines 468-588 at the home node: the page fetched for the pending request, or an unsolicited one. */
  function PageArrives(h: Home, packet: Packet, index: nat, fds: seq<int>): Reply
    requires Sane(h, fds)
  {
    var p := h.pending;
    if p.requester == 0 then
      var (status, page) := Accept(h.status, h.page, packet.payload);
      Reply(h.(status := status, page := page), [])
    else if p.kind == WRITE then
      var g := if h.me in InvalidateSet(h.dir, p.requester) && h.me != p.requester then Drop(h) else h;
      if NeedsAcks(h, p.requester, fds) then
        StartCollecting(g, p.requester, p.clientFd, packet.payload, index, fds)
      else
        Handover(g.(dir := ToModified(h.dir, p.requester)), packet)
    else
      Handover(h.(dir := ToShared(h.dir, p.requester)), packet)
  }

  /** Install the page here or forward the packet to the requester, and free the slot. */
  function Handover(h: Home, packet: Packet): Reply {
    var p := h.pending;
    var free := h.(pending := p.(requester := 0));
    if p.requester == h.me then Reply(Install(free, packet.payload), [])
    else Reply(free, Send(p.clientFd, packet))
  }

  /** Lines 609-654 */
  function AckArrives(h: Home, index: nat): Reply {
    var p := h.pending;
    if p.expectedAcks == 0 then Reply(h, [])
    else if p.expectedAcks > 1 then Reply(h.(pending := p.(expectedAcks := p.expectedAcks - 1)), [])
    else
      var free := h.(pending := p.(expectedAcks := 0, requester := 0));
      if p.requester != h.me then Reply(free, Send(p.clientFd, PagePacket(index, h.me, p.payload)))
      else if h.status == WRITE_PENDING then Reply(free.(status := VALID), [])
      else Reply(Install(free, p.payload), [])
  }

  // ---- A worker's copy ----

  datatype Copy = Copy(status: Status, page: Page)

  function WorkerAccepts(c: Copy, payload: Page): Copy {
    var (status, page) := Accept(c.status, c.page, payload);
    Copy(status, page)
  }

  /** Lines 589-595 */
  function WorkerDrops(c: Copy): Copy {
    Copy(EMPTY, ZeroPage())
  }

  /** What a worker answers to the home node's fetch: its page if it has one. */
  function WorkerServes(c: Copy): Page {
    if c.status == VALID then c.page else ZeroPage()
  }

  /** A worker runs the same request handler on its own table and its own directory, in which nobody ever
      becomes an owner because the home node only ever asks it to READ: it answers with its page, keeps its
      copy, and its directory still has no owner. */
  lemma WorkerHandlesFetch(w: Home, homeId: nat, fd: int, index: nat, fds: seq<int>)
    requires Sane(w, fds) && w.dir.state != MODIFIED && w.dir.owner == 0 && fd != -1
    ensures var r := RemoteRequest(w, homeId, READ, fd, index, fds);
      && r.sent == [Sent(fd, PagePacket(index, w.me, WorkerServes(Copy(w.status, w.page))))]
      && r.home == w.(dir := r.home.dir) && r.home.dir.state != MODIFIED && r.home.dir.owner == 0
  {
  }
}
