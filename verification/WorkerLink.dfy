/** A worker's handlers take exactly the worker's steps of the transition systems. */
module WorkerLink {
  import opened Wire
  import opened Bitmap
  import opened Directory
  import opened PageStatus
  import opened HomeSpec
  import opened HomeRuns
  import opened HomeEngine
  import Protocol

  /** Worker n's memory for the page of s is what s says it is. */
  ghost predicate Represents(w: WorkerNode, s: Sys, n: nat)
    reads w, w.tables, w.tables.pages, w.tables.dir, w.tables.dir.entries
  {
    && w.Valid() && Shape(s) && IsNode(n)
    && w.tables.me == n && s.index < w.tables.pages.Length
    && w.At(s.index) == s.copies[n]
  }

  function PacketsOf(sent: seq<Sent>): seq<Packet> {
    seq(|sent|, i requires 0 <= i < |sent| => sent[i].packet)
  }

  /** In every coherent state, what reaches a worker is a page, an invalidation, or the home node's fetch. */
  lemma PacketForWorker(s: Sys, n: nat)
    requires Inv(s) && Enabled(s, NodeReceives(n))
    ensures var p := s.toNode[n][0];
      && p.page == s.index
      && (p.kind == SEND_PAGE || p.kind == INVALIDATE || (p.kind == READ && p.sender == s.home.me))
  {
    match s.txn
    case Idle =>
    case Serving(k, isWrite) =>
      if isWrite && Collecting(s, k) {
        assert Silent(s, k);
        assert n != k ==> Dropping(s, n);
      } else if Granting(s, k, isWrite) {
        assert n != k ==> Silent(s, n);
      } else {
        assert n != k && !(Fetching(s, k, isWrite) && n == s.home.dir.owner) ==> Silent(s, n);
      }
  }

  /** What the step does at the worker, and what it adds to its connection to the home node. */
  lemma StepAtWorker(s: Sys, n: nat)
    requires Inv(s) && Enabled(s, NodeReceives(n))
    ensures var t, p, c := Next(s, NodeReceives(n)), s.toNode[n][0], s.copies[n];
      && Shape(t) && t.index == s.index
      && (p.kind == SEND_PAGE ==> t.copies[n] == WorkerAccepts(c, p.payload) && t.toHome[n] == s.toHome[n])
      && (p.kind == INVALIDATE ==>
           t.copies[n] == WorkerDrops(c) && t.toHome[n] == s.toHome[n] + [Packet(INVALIDATE_ACK, s.index, n, ZeroPage())])
      && (p.kind == READ ==>
           t.copies[n] == c && t.toHome[n] == s.toHome[n] + [PagePacket(s.index, n, WorkerServes(c))])
  {
  }

  /** The oldest packet to worker n is handed to it over its connection to the home node:
      its memory is that of the step NodeReceives(n), what it sends goes out on that connection and is what
      the step adds to it, and no other page changes. */
  method ReceiveFrom(w: WorkerNode, ghost s: Sys, n: nat, packet: Packet, fd: int) returns (sent: seq<Sent>)
    requires Represents(w, s, n) && Inv(s) && fd != -1
    requires Enabled(s, NodeReceives(n)) && s.toNode[n][0] == packet
    modifies w.tables.pages, w.tables.slots, w.tables.nodeFds, w.tables.dir.entries
    ensures Represents(w, Next(s, NodeReceives(n)), n)
    ensures Next(s, NodeReceives(n)).toHome[n] == s.toHome[n] + PacketsOf(sent)
    ensures forall out <- sent :: out.fd == fd
    ensures forall p :: 0 <= p < w.tables.pages.Length && p != packet.page ==> w.At(p) == old(w.At(p))
  {
    PacketForWorker(s, n);
    StepAtWorker(s, n);
    sent := Handle(w, packet, fd);
  }

  /** A fault of worker n: the fault handler has set the status, and the request popped from the queue is sent on. */
  method TakeFault(w: WorkerNode, ghost s: Sys, n: nat, idx: nat, isWrite: bool, fd: int) returns (sent: seq<Sent>)
    requires Shape(s) && idx == s.index && fd != -1 && n != s.home.me && Enabled(s, Fault(n, isWrite))
    requires Represents(w, s.(copies := s.copies[n := s.copies[n].(status := Faulted(s.copies[n].status, isWrite))]), n)
    ensures Represents(w, Next(s, Fault(n, isWrite)), n)
    ensures Next(s, Fault(n, isWrite)).toHome[n] == s.toHome[n] + PacketsOf(sent) && (forall out <- sent :: out.fd == fd)
  {
    sent := w.OnLocalRequest(idx, isWrite, fd);
    assert PacketsOf(sent) == [Packet(if isWrite then WRITE else READ, idx, n, ZeroPage())];
  }

  /** The worker's part of the event loop, for the three kinds of packet it receives. */
  method Handle(w: WorkerNode, packet: Packet, fd: int) returns (sent: seq<Sent>)
    requires w.Valid() && packet.page < w.tables.pages.Length && fd != -1
    requires packet.kind == SEND_PAGE || packet.kind == INVALIDATE || (packet.kind == READ && packet.sender < WIDTH)
    modifies w.tables.pages, w.tables.slots, w.tables.nodeFds, w.tables.dir.entries
    ensures w.Valid()
    ensures w.At(packet.page) == (if packet.kind == SEND_PAGE then WorkerAccepts(old(w.At(packet.page)), packet.payload)
                                  else if packet.kind == INVALIDATE then WorkerDrops(old(w.At(packet.page)))
                                  else old(w.At(packet.page)))
    ensures PacketsOf(sent) == (if packet.kind == SEND_PAGE then []
                                else if packet.kind == INVALIDATE then [Packet(INVALIDATE_ACK, packet.page, w.tables.me, ZeroPage())]
                                else [PagePacket(packet.page, w.tables.me, WorkerServes(old(w.At(packet.page))))])
    ensures forall out <- sent :: out.fd == fd
    ensures forall p :: 0 <= p < w.tables.pages.Length && p != packet.page ==> w.At(p) == old(w.At(p))
  {
    if packet.kind == SEND_PAGE {
      w.OnSendPage(packet);
      sent := [];
    } else if packet.kind == INVALIDATE {
      sent := w.OnInvalidate(packet, fd, fd);
    } else {
      sent := w.OnFetch(packet, fd);
    }
  }

  /** The workers of the permission-only system change their status as these do. */
  lemma SameStatus(w: Protocol.Worker, page: Page, payload: Page)
    ensures Protocol.Granted(w).status == WorkerAccepts(Copy(w.status, page), payload).status
    ensures Protocol.Dropped(w).status == WorkerDrops(Copy(w.status, page)).status
  {
  }
}
