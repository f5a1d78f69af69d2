/** What one page of coordinator_sequencer.c does, over values: the transaction record, the deferred
    queue as a sequence, and the packets each call sends. The class in Sequencer.dfy implements exactly
    these functions; Protocol.dfy runs them against the workers. */
module SequencerSpec {
  import opened Wire
  import opened Bitmap
  import opened Directory

  datatype Request = Request(node: nat, kind: nat, clientFd: int, page: nat)

  /** page_sequencer_t, with the linked list as a sequence. */
  datatype Record = Record(active: bool, activeNode: nat, expectedAcks: nat, deferred: seq<Request>)

  const IDLE := Record(false, 0, 0, [])

  datatype Outcome = Outcome(rec: Record, dir: Dir, sent: seq<Sent>)

  function Grant(page: nat): Packet {
    Packet(SEND_PAGE, page, 0, ZeroPage())
  }

  function InvalidatePacket(page: nat, sender: nat): Packet {
    Packet(INVALIDATE, page, sender, ZeroPage())
  }

  /** The invalidations sent to the targets i, i+1, ..., 63 that are connected. */
  function Broadcast(targets: set<nat>, packet: Packet, fds: seq<int>, i: nat): seq<Sent>
    requires i <= WIDTH && |fds| == WIDTH
    decreases |fds| - i
  {
    if i == |fds| then [] else
    (if i in targets then Send(fds[i], packet) else []) + Broadcast(targets, packet, fds, i + 1)
  }

  lemma BroadcastStep(sent: seq<Sent>, targets: set<nat>, packet: Packet, fds: seq<int>, i: nat)
    requires i < WIDTH == |fds|
    ensures (sent + (if i in targets then Send(fds[i], packet) else [])) + Broadcast(targets, packet, fds, i + 1)
         == sent + Broadcast(targets, packet, fds, i)
  {
  }

  lemma BroadcastEnds(sent: seq<Sent>, targets: set<nat>, packet: Packet, fds: seq<int>, i: nat)
    requires i == WIDTH == |fds|
    ensures sent + Broadcast(targets, packet, fds, i) == sent
  {
  }

  /** execute_gpd_transaction */
  function Execute(r: Record, d: Dir, q: Request, fds: seq<int>): Outcome
    requires d.owner < WIDTH && |fds| == WIDTH
  {
    if q.kind == WRITE then
      var targets := InvalidateSet(d, q.node);
      if targets != {} then
        Outcome(r.(active := true, activeNode := q.node, expectedAcks := |targets|),
                ToModified(d, q.node),
                Broadcast(targets, InvalidatePacket(q.page, 0), fds, 0))
      else
        Outcome(r.(active := false, activeNode := 0, expectedAcks := 0),
                ToModified(d, q.node),
                Send(q.clientFd, Grant(q.page)))
    else if q.kind == READ then
      if d.owner != 0 && d.owner != q.node then
        Outcome(r.(active := true, activeNode := q.node, expectedAcks := 1),
                ToShared(d, q.node),
                Send(fds[d.owner], InvalidatePacket(q.page, q.node)))
      else
        Outcome(r.(active := false, activeNode := 0),
                ToShared(d, q.node),
                Send(q.clientFd, Grant(q.page)))
    else
      Outcome(r.(active := true, activeNode := q.node), d, [])
  }

  /** process_node_request */
  function OnRequest(r: Record, d: Dir, q: Request, fds: seq<int>): Outcome
    requires d.owner < WIDTH && |fds| == WIDTH
  {
    if r.active
    then Outcome(r.(deferred := r.deferred + [q]), d, [])
    else Execute(r, d, q, fds)
  }

  /** The record once the last acknowledgement is in. */
  function Completed(r: Record): Record {
    r.(active := false, activeNode := 0, expectedAcks := 0)
  }

  /** Start the oldest deferred request, if there is one. */
  function Resume(r: Record, d: Dir, fds: seq<int>): Outcome
    requires d.owner < WIDTH && |fds| == WIDTH
  {
    if r.deferred == [] then Outcome(r, d, [])
    else Execute(r.(deferred := r.deferred[1..]), d, r.deferred[0], fds)
  }

  /** process_node_invalidate_ack */
  function OnAck(r: Record, d: Dir, page: nat, fds: seq<int>): Outcome
    requires d.owner < WIDTH && r.activeNode < WIDTH && |fds| == WIDTH
  {
    if !r.active || r.expectedAcks == 0 then Outcome(r, d, [])
    else if r.expectedAcks > 1 then Outcome(r.(expectedAcks := r.expectedAcks - 1), d, [])
    else
      var next := Resume(Completed(r), d, fds);
      Outcome(next.rec, next.dir, Send(fds[r.activeNode], Grant(page)) + next.sent)
  }
}
