/** The coordinator half of network_engine.c in its own form: the page table, the pending slots, the
    connection table and the directory are arrays updated in place. The event loop is single-threaded and
    holds the page lock, so each handler is one step; each is proved to do what HomeSpec says. */
module HomeEngine {
  import opened Wire
  import opened Bitmap
  import opened Directory
  import opened PageStatus
  import opened HomeSpec
  import SequencerSpec

  /** page_tracker_t with the contents of the page. */
  datatype PageEntry = PageEntry(status: Status, page: Page)

  class HomeNode {
    const me: nat
    const pages: array<PageEntry>
    const slots: array<Pending>
    const nodeFds: array<int>
    const dir: GlobalPageDirectory

    ghost predicate Valid()
      reads this, dir, dir.entries
    {
      IsNode(me) && nodeFds.Length == WIDTH && dir.Valid() && pages.Length == slots.Length == dir.entries.Length
    }

    ghost function At(idx: nat): Home
      requires idx < pages.Length == slots.Length == dir.entries.Length
      reads this, pages, slots, dir, dir.entries
    {
      Home(me, pages[idx].status, pages[idx].page, dir.At(idx), slots[idx])
    }

    /** Nothing about any other page has changed. */
    twostate predicate OnlyAt(idx: nat)
      requires pages.Length == slots.Length == dir.entries.Length
      reads this, pages, slots, dir, dir.entries
    {
      forall p :: 0 <= p < pages.Length && p != idx ==>
        pages[p] == old(pages[p]) && slots[p] == old(slots[p]) && dir.entries[p] == old(dir.entries[p])
    }

    constructor (me: nat, numPages: nat)
      requires IsNode(me)
      ensures Valid() && fresh(pages) && fresh(slots) && fresh(nodeFds) && fresh(dir.entries)
      ensures pages.Length == numPages && this.me == me
      ensures forall i :: 0 <= i < numPages ==> At(i) == Home(me, EMPTY, ZeroPage(), INITIAL, Pending(0, 0, 0, 0, ZeroPage()))
      ensures forall i :: 0 <= i < WIDTH ==> nodeFds[i] == -1
    {
      this.me := me;
      var zero := ZeroPage();
      pages := new PageEntry[numPages](_ => PageEntry(EMPTY, zero));
      slots := new Pending[numPages](_ => Pending(0, 0, 0, 0, zero));
      nodeFds := new int[WIDTH](_ => -1);
      dir := new GlobalPageDirectory(numPages);
    }

    /** The counting loop: the targets other than the requester that are connected. */
    method CountConnected(mask: bv64, requester: nat) returns (count: nat)
      requires Valid() && requester !in Members(mask)
      ensures count == |Connected(Members(mask), nodeFds[..])|
    {
      ghost var acks := Connected(Members(mask), nodeFds[..]);
      ghost var seen: set<nat> := {};
      count := 0;
      for m := 0 to WIDTH
        invariant seen == set x | x in acks && x < m
        invariant count == |seen|
      {
        var isTarget := Contains(mask, m);
        if isTarget && nodeFds[m] != -1 && m != requester {
          count := count + 1;
          seen := seen + {m};
        }
      }
      assert seen == acks;
    }

    /** The sending loop over the same targets. */
    method BroadcastInvalidate(mask: bv64, requester: nat, idx: nat) returns (sent: seq<Sent>)
      requires Valid() && requester !in Members(mask)
      ensures sent == Broadcast(Connected(Members(mask), nodeFds[..]), idx, nodeFds[..])
    {
      sent := [];
      ghost var fds := nodeFds[..];
      ghost var acks := Connected(Members(mask), fds);
      var packet := InvalidatePacket(idx);
      for m := 0 to WIDTH
        invariant sent + SequencerSpec.Broadcast(acks, packet, fds, m) == SequencerSpec.Broadcast(acks, packet, fds, 0)
      {
        var isTarget := Contains(mask, m);
        SequencerSpec.BroadcastStep(sent, acks, packet, fds, m);
        var out: seq<Sent> := [];
        if isTarget && nodeFds[m] != -1 && m != requester {
          out := Send(nodeFds[m], packet);
        }
        assert out == if m in acks then Send(fds[m], packet) else [];
        sent := sent + out;
      }
      SequencerSpec.BroadcastEnds(sent, acks, packet, fds, WIDTH);
    }

    /** Make `writer` the owner in the directory; `others` are the other holders apart from the home node. */
    method Own(idx: nat, writer: nat) returns (others: bv64)
      requires Valid() && idx < pages.Length && writer < WIDTH
      modifies dir.entries
      ensures Valid() && OnlyAt(idx)
      ensures dir.At(idx) == ToModified(old(dir.At(idx)), writer)
      ensures Members(others) == InvalidateSet(old(dir.At(idx)), writer) - {me}
    {
      var _, mask := dir.TransitionToModified(idx, writer);
      MembersAndNot(mask, me);
      others := AndNot(mask, Bit(me));
    }

    /** Hand the page over to a writer: make it the owner in the directory, drop the home copy if asked to,
        and either fill the slot and tell the other holders, or report that nobody has to be told. */
    method TakeOver(idx: nat, writer: nat, fd: int, payload: Page, drop: bool) returns (acks: nat, sent: seq<Sent>)
      requires Valid() && idx < pages.Length && writer < WIDTH
      modifies pages, slots, dir.entries
      ensures Valid() && OnlyAt(idx)
      ensures acks > 0 <==> old(NeedsAcks(At(idx), writer, nodeFds[..]))
      ensures acks > 0 ==>
                Reply(At(idx), sent) == old(StartCollecting(if drop then Drop(At(idx)) else At(idx), writer, fd, payload, idx, nodeFds[..]))
      ensures acks == 0 ==>
                sent == [] && At(idx) == old(if drop then Drop(At(idx)) else At(idx)).(dir := ToModified(old(dir.At(idx)), writer))
    {
      ghost var before := At(idx);
      var others := Own(idx, writer);
      if drop {
        pages[idx] := PageEntry(EMPTY, ZeroPage());
      }
      assert At(idx) == (if drop then Drop(before) else before).(dir := ToModified(before.dir, writer));
      acks, sent := TellOthers(idx, writer, fd, payload, others);
    }

    /** Fill the slot and tell the connected nodes in the mask, if there are any. */
    method TellOthers(idx: nat, writer: nat, fd: int, payload: Page, mask: bv64) returns (acks: nat, sent: seq<Sent>)
      requires Valid() && idx < pages.Length && writer !in Members(mask)
      modifies slots
      ensures Valid() && acks == |Connected(Members(mask), nodeFds[..])|
      ensures acks > 0 <==> Connected(Members(mask), nodeFds[..]) != {}
      ensures slots[idx] == if acks > 0 then Pending(writer, WRITE, fd, acks, payload) else old(slots[idx])
      ensures forall p :: 0 <= p < slots.Length && p != idx ==> slots[p] == old(slots[p])
      ensures sent == if acks > 0 then Broadcast(Connected(Members(mask), nodeFds[..]), idx, nodeFds[..]) else []
    {
      acks := CountConnected(mask, writer);
      sent := [];
      if acks > 0 {
        slots[idx] := Pending(writer, WRITE, fd, acks, payload);
        sent := BroadcastInvalidate(mask, writer, idx);
      }
    }

    method InstallPage(idx: nat, payload: Page)
      requires Valid() && idx < pages.Length
      modifies pages
      ensures Valid() && At(idx) == Install(old(At(idx)), payload)
      ensures OnlyAt(idx)
    {
      pages[idx] := PageEntry(VALID, payload);
    }

    /** Lines 300-403: a request popped from the local fault queue. */
    method OnLocalRequest(idx: nat, isWrite: bool) returns (sent: seq<Sent>)
      requires Valid() && idx < pages.Length
      modifies pages, slots, dir.entries
      ensures Valid()
      ensures Reply(At(idx), sent) == old(LocalRequest(At(idx), isWrite, idx, nodeFds[..]))
      ensures OnlyAt(idx)
    {
      sent := [];
      var oldOwner := dir.GetOwner(idx);
      assert oldOwner < WIDTH;
      if Resident(pages[idx].status) {
        if isWrite {
          var acks;
          acks, sent := TakeOver(idx, me, -1, slots[idx].payload, false);
          if acks == 0 {
            pages[idx] := pages[idx].(status := VALID);
          }
        }
      } else if oldOwner != 0 && nodeFds[oldOwner] != -1 {
        slots[idx] := Pending(me, if isWrite then WRITE else READ, -1, 0, slots[idx].payload);
        sent := Send(nodeFds[oldOwner], FetchPacket(idx, me));
      } else {
        InstallPage(idx, ZeroPage());
        if isWrite {
          var _, _ := dir.TransitionToModified(idx, me);
        } else {
          var _, _ := dir.TransitionToShared(idx, me);
        }
      }
    }

    /** Lines 656-728: the home node has the page. */
    method ServeFromCopy(idx: nat, n: nat, kind: nat, fd: int) returns (sent: seq<Sent>)
      requires Valid() && idx < pages.Length && n < WIDTH && pages[idx].status == VALID
      modifies pages, slots, dir.entries
      ensures Valid()
      ensures Reply(At(idx), sent) == old(RemoteRequest(At(idx), n, kind, fd, idx, nodeFds[..]))
      ensures OnlyAt(idx)
    {
      var response := PagePacket(idx, me, pages[idx].page);
      if kind == WRITE {
        var acks;
        acks, sent := TakeOver(idx, n, fd, response.payload, true);
        if acks == 0 {
          sent := Send(fd, response);
        }
      } else {
        var _, _ := dir.TransitionToShared(idx, n);
        sent := Send(fd, response);
      }
    }

    /** Lines 745-792: nobody can be asked for the page. */
    method ServeZeros(idx: nat, n: nat, kind: nat, fd: int) returns (sent: seq<Sent>)
      requires Valid() && idx < pages.Length && n < WIDTH && pages[idx].status != VALID
      requires dir.At(idx).owner == 0 || nodeFds[dir.At(idx).owner] == -1 || dir.At(idx).owner == n
      modifies pages, slots, dir.entries
      ensures Valid()
      ensures Reply(At(idx), sent) == old(RemoteRequest(At(idx), n, kind, fd, idx, nodeFds[..]))
      ensures OnlyAt(idx)
    {
      var response := PagePacket(idx, me, ZeroPage());
      if kind == WRITE {
        var mine := HoldsForWriter(idx, n);
        var acks;
        acks, sent := TakeOver(idx, n, fd, response.payload, mine && me != n);
        if acks == 0 {
          sent := Send(fd, response);
        }
      } else {
        var _, _ := dir.TransitionToShared(idx, n);
        sent := Send(fd, response);
      }
    }

    /** Is the home node in the mask a write of `writer` will invalidate? */
    method HoldsForWriter(idx: nat, writer: nat) returns (yes: bool)
      requires Valid() && idx < pages.Length
      ensures yes <==> me in InvalidateSet(dir.At(idx), writer)
    {
      var e := dir.entries[idx];
      if me == writer || e.state == INVALID {
        return false;
      }
      if e.state == MODIFIED {
        return e.owner != 0 && e.owner == me;
      }
      yes := Contains(e.bitmap, me);
    }

    /** Lines 462-467: a node announces itself on connection fd. */
    method OnJoin(node: nat, fd: int)
      requires Valid()
      modifies nodeFds
      ensures Valid() && nodeFds[..] == Connect(old(nodeFds[..]), node, fd)
    {
      if node < 64 {
        nodeFds[node] := fd;
      }
    }

    /** Lines 655-795: a READ or WRITE request on connection fd, which becomes the node's connection. Unless the
        request is forwarded, the directory shifts by the sender's id. */
    method OnRequest(packet: Packet, fd: int) returns (sent: seq<Sent>)
      requires Valid()
      requires packet.page < pages.Length && packet.sender >= WIDTH ==> AsksOwner(At(packet.page), packet.sender, nodeFds[..])
      modifies pages, slots, nodeFds, dir.entries
      ensures Valid()
      ensures packet.page >= pages.Length ==> sent == [] && nodeFds[..] == old(nodeFds[..])
      ensures packet.page < pages.Length ==>
                && nodeFds[..] == Connect(old(nodeFds[..]), packet.sender, fd)
                && Reply(At(packet.page), sent)
                   == RemoteRequest(old(At(packet.page)), packet.sender, packet.kind, fd, packet.page, nodeFds[..])
      ensures OnlyAt(packet.page)
    {
      var idx, n := packet.page, packet.sender;
      if idx >= pages.Length {
        return [];
      }
      if n < WIDTH {
        nodeFds[n] := fd;
      }
      var oldOwner := dir.GetOwner(idx);
      assert oldOwner < WIDTH;
      if pages[idx].status == VALID {
        sent := ServeFromCopy(idx, n, packet.kind, fd);
      } else if oldOwner != 0 && nodeFds[oldOwner] != -1 && oldOwner != n {
        slots[idx] := Pending(n, packet.kind, fd, 0, slots[idx].payload);
        sent := Send(nodeFds[oldOwner], FetchPacket(idx, me));
      } else {
        sent := ServeZeros(idx, n, packet.kind, fd);
      }
    }

    /** Lines 505-525 and 531-550: install the page here or forward the packet, and free the slot. */
    method HandPageOver(idx: nat, packet: Packet) returns (sent: seq<Sent>)
      requires Valid() && idx < pages.Length
      modifies pages, slots
      ensures Valid()
      ensures Reply(At(idx), sent) == old(Handover(At(idx), packet))
      ensures OnlyAt(idx)
    {
      sent := [];
      if slots[idx].requester == me {
        InstallPage(idx, packet.payload);
      } else {
        sent := Send(slots[idx].clientFd, packet);
      }
      slots[idx] := slots[idx].(requester := 0);
    }

    /** Lines 468-588 */
    method OnSendPage(packet: Packet) returns (sent: seq<Sent>)
      requires Valid()
      requires packet.page < pages.Length ==> slots[packet.page].requester < WIDTH
      modifies pages, slots, dir.entries
      ensures Valid()
      ensures packet.page >= pages.Length ==> sent == []
      ensures packet.page < pages.Length ==>
                Reply(At(packet.page), sent) == old(PageArrives(At(packet.page), packet, packet.page, nodeFds[..]))
      ensures OnlyAt(packet.page)
    {
      var idx := packet.page;
      if idx >= pages.Length {
        return [];
      }
      var slot := slots[idx];
      sent := [];
      if slot.requester == 0 {
        if pages[idx].status != VALID {
          pages[idx] := PageEntry(VALID, if pages[idx].status == WRITE_PENDING then pages[idx].page else packet.payload);
        }
      } else if slot.kind == WRITE {
        var mine := HoldsForWriter(idx, slot.requester);
        var acks;
        acks, sent := TakeOver(idx, slot.requester, slot.clientFd, packet.payload, mine && me != slot.requester);
        if acks == 0 {
          sent := HandPageOver(idx, packet);
        }
      } else {
        var _, _ := dir.TransitionToShared(idx, slot.requester);
        sent := HandPageOver(idx, packet);
      }
    }

    /** Lines 609-654 */
    method OnAck(idx: nat) returns (sent: seq<Sent>)
      requires Valid()
      modifies pages, slots
      ensures Valid()
      ensures idx >= pages.Length ==> sent == []
      ensures idx < pages.Length ==> Reply(At(idx), sent) == old(AckArrives(At(idx), idx))
      ensures OnlyAt(idx)
    {
      sent := [];
      if idx < pages.Length && slots[idx].expectedAcks > 0 {
        slots[idx] := slots[idx].(expectedAcks := slots[idx].expectedAcks - 1);
        if slots[idx].expectedAcks == 0 {
          if slots[idx].requester == me {
            if pages[idx].status == WRITE_PENDING {
              pages[idx] := pages[idx].(status := VALID);
            } else {
              InstallPage(idx, slots[idx].payload);
            }
          } else {
            sent := Send(slots[idx].clientFd, PagePacket(idx, me, slots[idx].payload));
          }
          slots[idx] := slots[idx].(requester := 0);
        }
      }
    }
  }

  /** The worker half: what a node with a coordinator does with the packets it receives. It has the same tables;
      its directory never records an owner. */
  class WorkerNode {
    const tables: HomeNode

    ghost predicate Valid()
      reads this, tables, tables.dir, tables.dir.entries
    {
      && tables.Valid()
      && forall p :: 0 <= p < tables.dir.entries.Length ==> tables.dir.At(p).state != MODIFIED && tables.dir.At(p).owner == 0
    }

    constructor (me: nat, numPages: nat)
      requires IsNode(me)
      ensures Valid() && fresh(tables) && tables.me == me && tables.pages.Length == numPages
      ensures forall i :: 0 <= i < numPages ==> At(i) == Copy(EMPTY, ZeroPage())
    {
      tables := new HomeNode(me, numPages);
      new;
      forall i | 0 <= i < numPages
        ensures tables.dir.At(i) == INITIAL && At(i) == Copy(EMPTY, ZeroPage())
      {
        assert tables.At(i) == Home(me, EMPTY, ZeroPage(), INITIAL, Pending(0, 0, 0, 0, ZeroPage()));
      }
    }

    ghost function At(idx: nat): Copy
      requires idx < tables.pages.Length
      reads this, tables, tables.pages
    {
      Copy(tables.pages[idx].status, tables.pages[idx].page)
    }

    /** Lines 300-312: a request popped from the local fault queue goes to the coordinator. */
    method OnLocalRequest(idx: nat, isWrite: bool, coordinatorFd: int) returns (sent: seq<Sent>)
      ensures sent == Send(coordinatorFd, Packet(if isWrite then WRITE else READ, idx, tables.me, ZeroPage()))
    {
      var kind := if isWrite then WRITE else READ;
      sent := Send(coordinatorFd, Packet(kind, idx, tables.me, ZeroPage()));
    }

    /** Lines 552-586 */
    method OnSendPage(packet: Packet)
      requires Valid()
      modifies tables.pages
      ensures Valid()
      ensures packet.page < tables.pages.Length ==> At(packet.page) == WorkerAccepts(old(At(packet.page)), packet.payload)
      ensures forall p :: 0 <= p < tables.pages.Length && p != packet.page ==> At(p) == old(At(p))
    {
      var idx, pages := packet.page, tables.pages;
      if idx < pages.Length {
        var status := pages[idx].status;
        if status == PENDING || status == WRITE_PENDING || status == EMPTY {
          if status != WRITE_PENDING {
            pages[idx] := pages[idx].(page := packet.payload);
          }
          pages[idx] := pages[idx].(status := VALID);
        }
      }
    }

    /** Lines 589-607: drop the page and acknowledge to the coordinator, or, without one, where the packet came from. */
    method OnInvalidate(packet: Packet, coordinatorFd: int, clientFd: int) returns (sent: seq<Sent>)
      requires Valid()
      modifies tables.pages
      ensures Valid()
      ensures packet.page < tables.pages.Length ==>
                && At(packet.page) == WorkerDrops(old(At(packet.page)))
                && sent == Send(if coordinatorFd != -1 then coordinatorFd else clientFd,
                                Packet(INVALIDATE_ACK, packet.page, tables.me, ZeroPage()))
      ensures packet.page >= tables.pages.Length ==> sent == []
      ensures forall p :: 0 <= p < tables.pages.Length && p != packet.page ==> At(p) == old(At(p))
    {
      sent := [];
      var idx := packet.page;
      if idx < tables.pages.Length {
        tables.pages[idx] := PageEntry(EMPTY, ZeroPage());
        var ack := Packet(INVALIDATE_ACK, idx, tables.me, ZeroPage());
        if coordinatorFd != -1 {
          sent := Send(coordinatorFd, ack);
        } else {
          sent := Send(clientFd, ack);
        }
      }
    }

    /** Lines 655-794 at a worker: the home node's fetch is answered with the page, and the copy stays. */
    method OnFetch(packet: Packet, fd: int) returns (sent: seq<Sent>)
      requires Valid() && packet.kind == READ && packet.sender < WIDTH && fd != -1
      modifies tables.pages, tables.slots, tables.nodeFds, tables.dir.entries
      ensures Valid()
      ensures packet.page < tables.pages.Length ==>
                sent == [Sent(fd, PagePacket(packet.page, tables.me, WorkerServes(At(packet.page))))]
      ensures packet.page >= tables.pages.Length ==> sent == []
      ensures forall p :: 0 <= p < tables.pages.Length ==> At(p) == old(At(p))
    {
      if packet.page < tables.pages.Length {
        WorkerHandlesFetch(tables.At(packet.page), packet.sender, fd, packet.page, Connect(tables.nodeFds[..], packet.sender, fd));
      }
      sent := tables.OnRequest(packet, fd);
      forall p | 0 <= p < tables.dir.entries.Length
        ensures tables.dir.At(p).state != MODIFIED && tables.dir.At(p).owner == 0
      {
        assert p == packet.page ==> tables.dir.At(p) == tables.At(p).dir;
        assert p != packet.page ==> tables.dir.entries[p] == old(tables.dir.entries[p]) && old(tables.dir.At(p)).state != MODIFIED;
      }
    }
  }
}
