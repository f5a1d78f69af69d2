/** coordinator_sequencer.c in its own form: a record per page, updated in place, whose deferred requests
    are a linked list with a head and a tail pointer. Every method is proved to do what SequencerSpec says. */
module Sequencer {
  import opened Wire
  import opened Bitmap
  import opened Directory
  import opened SequencerSpec

  /** deferred_request_t: the payload is written once, the link later. */
  class DeferredRequest {
    const request: Request
    var next: DeferredRequest?

    constructor (request: Request)
      ensures this.request == request && next == null
    {
      this.request := request;
      next := null;
    }
  }

  /** The elements are distinct, each linked to the following one and the last one to nothing. */
  ghost predicate Linked(chain: seq<DeferredRequest>)
    reads chain
  {
    && (forall i, j :: 0 <= i && j == i + 1 && j < |chain| ==> chain[i].next == chain[j])
    && (chain != [] ==> chain[|chain| - 1].next == null)
    && (forall i, j :: 0 <= i < j < |chain| ==> chain[i] != chain[j])
  }

  ghost function RequestsOf(chain: seq<DeferredRequest>): (q: seq<Request>)
    ensures |q| == |chain| && forall i :: 0 <= i < |chain| ==> q[i] == chain[i].request
  {
    seq(|chain|, i requires 0 <= i < |chain| => chain[i].request)
  }

  /** Without its first element, a list is still one. */
  lemma LinkedTail(chain: seq<DeferredRequest>)
    requires Linked(chain) && chain != []
    ensures Linked(chain[1..]) && RequestsOf(chain[1..]) == RequestsOf(chain)[1..]
    ensures chain[0].next == if |chain| == 1 then null else chain[1]
  {
    var rest := chain[1..];
    forall i, j | 0 <= i && j == i + 1 && j < |rest|
      ensures rest[i].next == rest[j]
    {
      assert chain[i + 1].next == chain[j + 1];
    }
    forall i, j | 0 <= i < j < |rest|
      ensures rest[i] != rest[j]
    {
      assert chain[i + 1] != chain[j + 1];
    }
    assert |chain| > 1 ==> chain[0].next == chain[0 + 1];
  }

  /** page_sequencer_t. The page lock makes each method one step. */
  class PageSequencer {
    var transactionActive: bool
    var activeNode: nat
    var expectedAcks: nat
    var queueHead: DeferredRequest?
    var queueTail: DeferredRequest?
    /** The list elements from head to tail. */
    ghost var chain: seq<DeferredRequest>

    ghost predicate Valid()
      reads this, chain
    {
      && activeNode < WIDTH
      && (queueHead == null <==> chain == [])
      && (queueTail == null <==> chain == [])
      && (chain != [] ==> queueHead == chain[0] && queueTail == chain[|chain| - 1])
      && Linked(chain)
      && (forall i :: 0 <= i < |chain| ==> chain[i].request.node < WIDTH)
    }

    ghost function View(): Record
      reads this
    {
      Record(transactionActive, activeNode, expectedAcks, RequestsOf(chain))
    }

    /** coordinator_sequencer_init, for one page. */
    constructor ()
      ensures Valid() && View() == IDLE && chain == []
    {
      transactionActive := false;
      activeNode := 0;
      expectedAcks := 0;
      queueHead := null;
      queueTail := null;
      chain := [];
    }

    /** execute_gpd_transaction */
    method Execute(dir: GlobalPageDirectory, q: Request, nodeFds: array<int>) returns (sent: seq<Sent>)
      requires Valid() && dir.Valid() && q.page < dir.entries.Length
      requires q.node < WIDTH && nodeFds.Length == WIDTH
      modifies this, dir.entries
      ensures Valid() && dir.Valid() && chain == old(chain)
      ensures Outcome(View(), dir.At(q.page), sent) == old(SequencerSpec.Execute(View(), dir.At(q.page), q, nodeFds[..]))
      ensures forall p :: 0 <= p < dir.entries.Length && p != q.page ==> dir.entries[p] == old(dir.entries[p])
    {
      if q.kind == WRITE {
        sent := ExecuteWrite(dir, q, nodeFds);
      } else if q.kind == READ {
        sent := ExecuteRead(dir, q, nodeFds);
      } else {
        transactionActive := true;
        activeNode := q.node;
        sent := [];
      }
    }

    /** Lines 63-107. */
    method ExecuteWrite(dir: GlobalPageDirectory, q: Request, nodeFds: array<int>) returns (sent: seq<Sent>)
      requires q.kind == WRITE
      requires Valid() && dir.Valid() && q.page < dir.entries.Length
      requires q.node < WIDTH && nodeFds.Length == WIDTH
      modifies this, dir.entries
      ensures Valid() && dir.Valid() && chain == old(chain)
      ensures Outcome(View(), dir.At(q.page), sent) == old(SequencerSpec.Execute(View(), dir.At(q.page), q, nodeFds[..]))
      ensures forall p :: 0 <= p < dir.entries.Length && p != q.page ==> dir.entries[p] == old(dir.entries[p])
    {
      transactionActive := true;
      activeNode := q.node;
      var _, mask := dir.TransitionToModified(q.page, q.node);
      sent := InvalidateOrGrant(mask, q, nodeFds);
    }

    /** Lines 71-107: the transaction waits for the nodes in the mask, or is over. */
    method InvalidateOrGrant(mask: bv64, q: Request, nodeFds: array<int>) returns (sent: seq<Sent>)
      requires q.node !in Members(mask) && nodeFds.Length == WIDTH
      modifies this`transactionActive, this`activeNode, this`expectedAcks
      ensures Members(mask) != {} ==>
                && transactionActive == old(transactionActive) && activeNode == old(activeNode)
                && expectedAcks == |Members(mask)|
                && sent == Broadcast(Members(mask), InvalidatePacket(q.page, 0), nodeFds[..], 0)
      ensures Members(mask) == {} ==>
                !transactionActive && activeNode == 0 && expectedAcks == 0 && sent == Send(q.clientFd, Grant(q.page))
    {
      var acksNeeded := CountTargets(mask, q.node);
      expectedAcks := acksNeeded;
      if acksNeeded > 0 {
        sent := BroadcastInvalidate(mask, q.node, InvalidatePacket(q.page, 0), nodeFds);
      } else {
        assert Members(mask) == {};
        sent := Send(q.clientFd, Grant(q.page));
        transactionActive := false;
        activeNode := 0;
      }
    }

    /** Lines 63-64 and 109-133. */
    method ExecuteRead(dir: GlobalPageDirectory, q: Request, nodeFds: array<int>) returns (sent: seq<Sent>)
      requires q.kind == READ
      requires Valid() && dir.Valid() && q.page < dir.entries.Length
      requires q.node < WIDTH && nodeFds.Length == WIDTH
      modifies this, dir.entries
      ensures Valid() && dir.Valid() && chain == old(chain)
      ensures Outcome(View(), dir.At(q.page), sent) == old(SequencerSpec.Execute(View(), dir.At(q.page), q, nodeFds[..]))
      ensures forall p :: 0 <= p < dir.entries.Length && p != q.page ==> dir.entries[p] == old(dir.entries[p])
    {
      transactionActive := true;
      activeNode := q.node;
      var _, oldOwner := dir.TransitionToShared(q.page, q.node);
      if oldOwner != 0 && oldOwner != q.node {
        expectedAcks := 1;
        sent := Send(nodeFds[oldOwner], InvalidatePacket(q.page, q.node));
      } else {
        sent := Send(q.clientFd, Grant(q.page));
        transactionActive := false;
        activeNode := 0;
      }
    }

    /** The loop of lines 71-76. */
    static method CountTargets(mask: bv64, nodeId: nat) returns (count: nat)
      requires nodeId !in Members(mask)
      ensures count == |Members(mask)|
    {
      count := 0;
      ghost var targets := Members(mask);
      ghost var seen: set<nat> := {};
      for i := 0 to WIDTH
        invariant seen == set x | x in targets && x < i
        invariant count == |seen|
      {
        var isTarget := Contains(mask, i);
        if isTarget && i != nodeId {
          count := count + 1;
          seen := seen + {i};
        }
      }
      assert seen == targets;
    }

    /** The loop of lines 87-93. */
    static method BroadcastInvalidate(mask: bv64, nodeId: nat, packet: Packet, nodeFds: array<int>) returns (sent: seq<Sent>)
      requires nodeId !in Members(mask) && nodeFds.Length == WIDTH
      ensures sent == Broadcast(Members(mask), packet, nodeFds[..], 0)
    {
      sent := [];
      ghost var targets, fds := Members(mask), nodeFds[..];
      for i := 0 to WIDTH
        invariant sent + Broadcast(targets, packet, fds, i) == Broadcast(targets, packet, fds, 0)
      {
        var isTarget := Contains(mask, i);
        BroadcastStep(sent, targets, packet, fds, i);
        var out: seq<Sent> := [];
        if isTarget && i != nodeId {
          if nodeFds[i] != -1 {
            out := Send(nodeFds[i], packet);
          }
        }
        assert out == if i in targets then Send(fds[i], packet) else [];
        sent := sent + out;
      }
      BroadcastEnds(sent, targets, packet, fds, WIDTH);
    }

    /** Lines 147-160: a new element behind the tail. */
    method Enqueue(q: Request)
      requires Valid() && q.node < WIDTH
      modifies this`queueHead, this`queueTail, this`chain, chain
      ensures Valid() && View() == old(View()).(deferred := old(View()).deferred + [q])
      ensures |chain| == old(|chain|) + 1 && chain[..|chain| - 1] == old(chain)
      ensures fresh(chain[|chain| - 1]) && chain[|chain| - 1].request == q
    {
      var added := new DeferredRequest(q);
      ghost var before := RequestsOf(chain);
      if queueHead == null {
        queueHead := added;
        queueTail := added;
      } else {
        queueTail.next := added;
        queueTail := added;
      }
      chain := chain + [added];
      assert RequestsOf(chain) == before + [q];
    }

    /** Lines 204-209: the head leaves the list. */
    method Dequeue() returns (q: Request)
      requires Valid() && queueHead != null
      modifies this`queueHead, this`queueTail, this`chain
      ensures Valid() && View() == old(View()).(deferred := old(View()).deferred[1..])
      ensures q == old(View()).deferred[0] && chain == old(chain)[1..]
    {
      LinkedTail(chain);
      q := queueHead.request;
      queueHead := queueHead.next;
      if queueHead == null {
        queueTail := null;
      }
      chain := chain[1..];
    }

    /** process_node_request, once the page is known to exist. */
    method OnRequest(dir: GlobalPageDirectory, q: Request, nodeFds: array<int>) returns (sent: seq<Sent>)
      requires Valid() && dir.Valid() && q.page < dir.entries.Length
      requires q.node < WIDTH && nodeFds.Length == WIDTH
      requires forall d <- chain :: d.request.page == q.page
      modifies this, chain, dir.entries
      ensures Valid() && dir.Valid()
      ensures Outcome(View(), dir.At(q.page), sent) == old(SequencerSpec.OnRequest(View(), dir.At(q.page), q, nodeFds[..]))
      ensures forall p :: 0 <= p < dir.entries.Length && p != q.page ==> dir.entries[p] == old(dir.entries[p])
      ensures forall d <- chain :: (d in old(chain) || fresh(d)) && d.request.page == q.page
    {
      if transactionActive {
        Enqueue(q);
        sent := [];
      } else {
        sent := Execute(dir, q, nodeFds);
      }
    }

    /** Lines 204-217: start the oldest deferred request. */
    method Resume(dir: GlobalPageDirectory, page: nat, nodeFds: array<int>) returns (sent: seq<Sent>)
      requires Valid() && dir.Valid() && page < dir.entries.Length && nodeFds.Length == WIDTH
      requires forall d <- chain :: d.request.page == page
      modifies this, dir.entries
      ensures Valid() && dir.Valid()
      ensures Outcome(View(), dir.At(page), sent) == old(SequencerSpec.Resume(View(), dir.At(page), nodeFds[..]))
      ensures forall p :: 0 <= p < dir.entries.Length && p != page ==> dir.entries[p] == old(dir.entries[p])
      ensures chain == if old(chain) == [] then [] else old(chain)[1..]
    {
      sent := [];
      if queueHead != null {
        var next := Dequeue();
        sent := Execute(dir, next, nodeFds);
      }
    }

    /** process_node_invalidate_ack, once the page is known to exist. */
    method OnAck(dir: GlobalPageDirectory, page: nat, nodeFds: array<int>) returns (sent: seq<Sent>)
      requires Valid() && dir.Valid() && page < dir.entries.Length && nodeFds.Length == WIDTH
      requires forall d <- chain :: d.request.page == page
      modifies this, dir.entries
      ensures Valid() && dir.Valid()
      ensures Outcome(View(), dir.At(page), sent) == old(SequencerSpec.OnAck(View(), dir.At(page), page, nodeFds[..]))
      ensures forall p :: 0 <= p < dir.entries.Length && p != page ==> dir.entries[p] == old(dir.entries[p])
      ensures forall d <- chain :: d in old(chain)
    {
      if !transactionActive || expectedAcks == 0 {
        return [];
      }
      sent := [];
      expectedAcks := expectedAcks - 1;
      if expectedAcks == 0 {
        var fd := nodeFds[activeNode];
        if fd != -1 {
          sent := Send(fd, Grant(page));
        }
        transactionActive := false;
        activeNode := 0;
        var more := Resume(dir, page, nodeFds);
        sent := sent + more;
      }
    }
  }

  /** The table of sequencers, one per page, beside the directory. */
  class CoordinatorSequencer {
    const table: seq<PageSequencer>
    const dir: GlobalPageDirectory

    ghost predicate Valid()
      reads *
    {
      && dir.Valid()
      && |table| == dir.entries.Length
      && (forall p :: 0 <= p < |table| ==> table[p].Valid() && forall d <- table[p].chain :: d.request.page == p)
      && (forall p, q :: 0 <= p < q < |table| ==> table[p] != table[q])
    }

    /** coordinator_sequencer_init */
    constructor (dir: GlobalPageDirectory)
      requires dir.Valid()
      ensures Valid() && this.dir == dir
      ensures forall p :: 0 <= p < |table| ==> table[p].View() == IDLE
    {
      var pages: seq<PageSequencer> := [];
      while |pages| < dir.entries.Length
        invariant |pages| <= dir.entries.Length
        invariant forall p :: 0 <= p < |pages| ==> fresh(pages[p]) && pages[p].Valid() && pages[p].chain == [] && pages[p].View() == IDLE
        invariant forall p, q :: 0 <= p < q < |pages| ==> pages[p] != pages[q]
        invariant dir.Valid()
      {
        var s := new PageSequencer();
        pages := pages + [s];
      }
      table := pages;
      this.dir := dir;
    }

    /** process_node_request: one page makes one step, every other page is untouched. */
    method ProcessNodeRequest(clientFd: int, packet: Packet, nodeFds: array<int>) returns (sent: seq<Sent>)
      requires Valid() && packet.sender < WIDTH && nodeFds.Length == WIDTH
      modifies if packet.page < |table| then {table[packet.page], dir.entries} + (set d | d in table[packet.page].chain) else {}
      ensures Valid()
      ensures packet.page >= |table| ==> sent == []
      ensures packet.page < |table| ==>
                Outcome(table[packet.page].View(), dir.At(packet.page), sent)
                == old(SequencerSpec.OnRequest(table[packet.page].View(), dir.At(packet.page),
                                               Request(packet.sender, packet.kind, clientFd, packet.page), nodeFds[..]))
      ensures forall p :: 0 <= p < |table| && p != packet.page ==>
                table[p].View() == old(table[p].View()) && dir.At(p) == old(dir.At(p))
    {
      if packet.page >= |table| {
        return [];
      }
      sent := table[packet.page].OnRequest(dir, Request(packet.sender, packet.kind, clientFd, packet.page), nodeFds);
    }

    /** process_node_invalidate_ack: likewise. */
    method ProcessInvalidateAck(page: nat, nodeFds: array<int>) returns (sent: seq<Sent>)
      requires Valid() && nodeFds.Length == WIDTH
      modifies if page < |table| then {table[page], dir.entries} else {}
      ensures Valid()
      ensures page >= |table| ==> sent == []
      ensures page < |table| ==>
                Outcome(table[page].View(), dir.At(page), sent)
                == old(SequencerSpec.OnAck(table[page].View(), dir.At(page), page, nodeFds[..]))
      ensures forall p :: 0 <= p < |table| && p != page ==>
                table[p].View() == old(table[p].View()) && dir.At(p) == old(dir.At(p))
    {
      if page >= |table| {
        return [];
      }
      sent := table[page].OnAck(dir, page, nodeFds);
    }
  }
}
