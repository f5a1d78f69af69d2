/** The linked-list coordinator takes exactly the coordinator's steps of the transition system. */
module CoordinatorLink {
  import opened Wire
  import opened Bitmap
  import opened Directory
  import opened SequencerSpec
  import opened Channels
  import opened Sequencer
  import opened Protocol

  /** The coordinator's memory for the page of s is what s says it is. */
  ghost predicate Represents(c: CoordinatorSequencer, s: Sys)
    reads *
  {
    && c.Valid()
    && s.page < |c.table|
    && c.table[s.page].View() == s.rec
    && c.dir.At(s.page) == s.dir
  }

  /** The oldest message of node n is handed to the coordinator: its memory and the packets it sends are
      those of the step CoordinatorReceives(n), and no other page's state changes. */
  method ReceiveFrom(c: CoordinatorSequencer, ghost s: Sys, n: nat, code: nat, page: nat, nodeFds: array<int>) returns (sent: seq<Sent>)
    requires Represents(c, s) && s.page == page
    requires Enabled(s, CoordinatorReceives(n)) && s.up[n][0] == code
    requires nodeFds.Length == WIDTH && nodeFds[..] == NodeFds()
    modifies c.table[page], c.dir.entries, set d | d in c.table[page].chain
    ensures Represents(c, Next(s, CoordinatorReceives(n)))
    ensures Deliver(s.down, sent, Code) == Next(s, CoordinatorReceives(n)).down
    ensures forall p :: 0 <= p < |c.table| && p != page ==>
              c.table[p].View() == old(c.table[p].View()) && c.dir.At(p) == old(c.dir.At(p))
  {
    if code == INVALIDATE_ACK {
      sent := c.ProcessInvalidateAck(page, nodeFds);
    } else {
      sent := c.ProcessNodeRequest(n, Packet(code, page, n, ZeroPage()), nodeFds);
    }
  }
}
