/** What is in flight: one first-in first-out connection to each node. A system keeps of every packet what
    `item` makes of it. */
module Channels {
  import opened Wire
  import opened Bitmap
  import opened SequencerSpec

  /** Append the sent packets to the connections they leave on. */
  function Deliver<T>(conns: seq<seq<T>>, sent: seq<Sent>, item: Packet -> T): (r: seq<seq<T>>)
    requires |conns| == WIDTH
    ensures |r| == WIDTH
    decreases |sent|
  {
    if sent == [] then conns else
    var fd := sent[0].fd;
    Deliver(if 0 <= fd < WIDTH then conns[fd := conns[fd] + [item(sent[0].packet)]] else conns, sent[1..], item)
  }

  lemma {:induction false} DeliverConcat<T>(conns: seq<seq<T>>, a: seq<Sent>, b: seq<Sent>, item: Packet -> T)
    requires |conns| == WIDTH
    ensures Deliver(conns, a + b, item) == Deliver(Deliver(conns, a, item), b, item)
    decreases |a|
  {
    if a == [] {
      assert a + b == b;
    } else {
      assert (a + b)[1..] == a[1..] + b;
      var fd := a[0].fd;
      DeliverConcat(if 0 <= fd < WIDTH then conns[fd := conns[fd] + [item(a[0].packet)]] else conns, a[1..], b, item);
    }
  }

  lemma DeliverOne<T>(conns: seq<seq<T>>, n: nat, p: Packet, item: Packet -> T)
    requires |conns| == WIDTH && n < WIDTH
    ensures Deliver(conns, Send(n, p), item) == conns[n := conns[n] + [item(p)]]
  {
    assert Send(n, p)[1..] == [];
  }

  /** One turn of the broadcast loop. */
  lemma BroadcastFrom<T>(conns: seq<seq<T>>, targets: set<nat>, p: Packet, fds: seq<int>, i: nat, item: Packet -> T)
    requires |conns| == WIDTH == |fds| && i < WIDTH && (i in targets ==> fds[i] == i)
    ensures Deliver(conns, Broadcast(targets, p, fds, i), item)
         == Deliver(if i in targets then conns[i := conns[i] + [item(p)]] else conns, Broadcast(targets, p, fds, i + 1), item)
  {
    var rest := Broadcast(targets, p, fds, i + 1);
    if i in targets {
      assert Broadcast(targets, p, fds, i) == Send(i, p) + rest;
      DeliverConcat(conns, Send(i, p), rest, item);
      DeliverOne(conns, i, p, item);
    } else {
      assert Broadcast(targets, p, fds, i) == [] + rest == rest;
    }
  }

  /** A broadcast appends exactly one packet to the connection of every target. */
  lemma {:induction false} DeliverBroadcast<T>(conns: seq<seq<T>>, targets: set<nat>, p: Packet, fds: seq<int>, i: nat, item: Packet -> T)
    requires |conns| == WIDTH == |fds| && i <= WIDTH && forall m <- targets :: m < WIDTH ==> fds[m] == m
    ensures forall m :: 0 <= m < WIDTH ==>
              Deliver(conns, Broadcast(targets, p, fds, i), item)[m]
              == if i <= m && m in targets then conns[m] + [item(p)] else conns[m]
    decreases WIDTH - i
  {
    if i < WIDTH {
      BroadcastFrom(conns, targets, p, fds, i, item);
      DeliverBroadcast(if i in targets then conns[i := conns[i] + [item(p)]] else conns, targets, p, fds, i + 1, item);
    } else {
      BroadcastEnds([], targets, p, fds, i);
    }
  }
}
