/** The home node's handlers take exactly the home node's steps of the transition system. */
module HomeLink {
  import opened Wire
  import opened Bitmap
  import opened Directory
  import opened PageStatus
  import opened Channels
  import opened HomeSpec
  import opened HomeRuns
  import opened HomeEngine
  import HomeTheorems

  /** The home node's memory for the page of s is what s says it is. */
  ghost predicate Represents(h: HomeNode, s: Sys)
    reads h, h.pages, h.slots, h.nodeFds, h.dir, h.dir.entries
  {
    && h.Valid() && Shape(s)
    && s.index < h.pages.Length
    && h.At(s.index) == s.home
    && h.nodeFds[..] == HomeFds(h.me)
  }

  /** In every coherent state, what reaches the home node is a packet of the page's own transaction, from the
      node on whose connection it arrives, and the slot names a node of the cluster. */
  lemma ArrivingPacket(s: Sys, n: nat)
    requires Inv(s) && Enabled(s, HomeReceives(n))
    ensures var p := s.toHome[n][0];
      && p.page == s.index && p.sender == n
      && (p.kind == READ || p.kind == WRITE || p.kind == SEND_PAGE || p.kind == INVALIDATE_ACK)
      && s.home.pending.requester < WIDTH
  {
    match s.txn
    case Idle =>
    case Serving(k, isWrite) =>
      if isWrite && Collecting(s, k) {
        assert Silent(s, k);
        assert n != k ==> Dropping(s, n);
      } else {
        assert n != k && !(Fetching(s, k, isWrite) && n == s.home.dir.owner) ==> Silent(s, n);
      }
  }

  /** A step of the home node is its reply to the packet. */
  lemma StepIsReply(s: Sys, n: nat)
    requires Inv(s) && Enabled(s, HomeReceives(n))
    ensures var t, r := Next(s, HomeReceives(n)), HomeReply(s, n, s.toHome[n][0]);
      Shape(t) && t.index == s.index && t.home == r.home && t.toNode == Deliver(s.toNode, r.sent, Whole)
  {
    HomeTheorems.HomeReceivesKeeps(s, n);
  }

  /** The oldest packet of node n is handed to the home node: its memory and the packets it sends are those of
      the step HomeReceives(n), and nothing about another page changes. */
  method ReceiveFrom(h: HomeNode, ghost s: Sys, n: nat, packet: Packet) returns (sent: seq<Sent>)
    requires Represents(h, s) && Inv(s)
    requires Enabled(s, HomeReceives(n)) && s.toHome[n][0] == packet
    modifies h.pages, h.slots, h.nodeFds, h.dir.entries
    ensures Represents(h, Next(s, HomeReceives(n)))
    ensures Deliver(s.toNode, sent, Whole) == Next(s, HomeReceives(n)).toNode
    ensures h.OnlyAt(packet.page)
  {
    ArrivingPacket(s, n);
    StepIsReply(s, n);
    sent := Handle(h, n, packet);
  }

  /** The home node's part of the event loop, with every worker on the connection of its own number. */
  method Handle(h: HomeNode, n: nat, packet: Packet) returns (sent: seq<Sent>)
    requires h.Valid() && packet.page < h.pages.Length && n < WIDTH && n != h.me && packet.sender == n
    requires h.nodeFds[..] == HomeFds(h.me) && h.slots[packet.page].requester < WIDTH
    requires packet.kind == READ || packet.kind == WRITE || packet.kind == SEND_PAGE || packet.kind == INVALIDATE_ACK
    modifies h.pages, h.slots, h.nodeFds, h.dir.entries
    ensures h.Valid() && h.nodeFds[..] == HomeFds(h.me)
    ensures Reply(h.At(packet.page), sent)
         == (if packet.kind == READ || packet.kind == WRITE
             then RemoteRequest(old(h.At(packet.page)), n, packet.kind, n, packet.page, HomeFds(h.me))
             else if packet.kind == SEND_PAGE then PageArrives(old(h.At(packet.page)), packet, packet.page, HomeFds(h.me))
             else AckArrives(old(h.At(packet.page)), packet.page))
    ensures h.OnlyAt(packet.page)
  {
    if packet.kind == READ || packet.kind == WRITE {
      assert Connect(h.nodeFds[..], n, n) == HomeFds(h.me);
      sent := h.OnRequest(packet, n);
    } else if packet.kind == SEND_PAGE {
      sent := h.OnSendPage(packet);
    } else {
      sent := h.OnAck(packet.page);
    }
  }

  /** A left-over request of the home node for a page that is there. */
  method TakeLeftover(h: HomeNode, ghost s: Sys, idx: nat, isWrite: bool) returns (sent: seq<Sent>)
    requires Represents(h, s) && idx == s.index && Enabled(s, Leftover(s.home.me, isWrite))
    modifies h.pages, h.slots, h.dir.entries
    ensures Represents(h, Next(s, Leftover(s.home.me, isWrite)))
    ensures Deliver(s.toNode, sent, Whole) == Next(s, Leftover(s.home.me, isWrite)).toNode
    ensures h.OnlyAt(idx)
  {
    sent := h.OnLocalRequest(idx, isWrite);
  }

  /** A fault of the home node itself: the fault handler has set the status, and the request is taken from the queue. */
  method TakeFault(h: HomeNode, ghost s: Sys, idx: nat, isWrite: bool) returns (sent: seq<Sent>)
    requires Shape(s) && idx == s.index && Enabled(s, Fault(s.home.me, isWrite))
    requires Represents(h, s.(home := s.home.(status := Faulted(s.home.status, isWrite))))
    modifies h.pages, h.slots, h.dir.entries
    ensures Represents(h, Next(s, Fault(s.home.me, isWrite)))
    ensures Deliver(s.toNode, sent, Whole) == Next(s, Fault(s.home.me, isWrite)).toNode
    ensures h.OnlyAt(idx)
  {
    sent := h.OnLocalRequest(idx, isWrite);
  }
}
