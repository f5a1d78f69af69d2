/** Which connections a broadcast reaches, for any connection table. */
module Invalidations {
  import opened Wire
  import opened Bitmap
  import opened SequencerSpec

  /** The connections on which nodes are told to drop the page, in order. */
  function Invalidated(sent: seq<Sent>): seq<int> {
    if sent == [] then []
    else (if sent[0].packet.kind == INVALIDATE then [sent[0].fd] else []) + Invalidated(sent[1..])
  }

  /** The connections of the targets below k that have one, in order. */
  function Told(targets: set<nat>, fds: seq<int>, k: nat): seq<int>
    requires k <= |fds|
    decreases |fds| + k
  {
    if k == 0 then []
    else Told(targets, fds, k - 1) + (if k - 1 in targets && fds[k - 1] != -1 then [fds[k - 1]] else [])
  }

  lemma {:induction false} InvalidatedConcat(a: seq<Sent>, b: seq<Sent>)
    ensures Invalidated(a + b) == Invalidated(a) + Invalidated(b)
    decreases |a|
  {
    if a == [] {
      assert a + b == b;
    } else {
      var first := if a[0].packet.kind == INVALIDATE then [a[0].fd] else [];
      InvalidatedConcat(a[1..], b);
      assert (a + b)[0] == a[0] && (a + b)[1..] == a[1..] + b;
      assert Invalidated(a + b) == first + (Invalidated(a[1..]) + Invalidated(b)) == (first + Invalidated(a[1..])) + Invalidated(b);
    }
  }

  lemma InvalidatedOne(fd: int, packet: Packet)
    ensures Invalidated(Send(fd, packet)) == if fd != -1 && packet.kind == INVALIDATE then [fd] else []
  {
    assert Send(fd, packet) == [] || Send(fd, packet)[1..] == [];
  }

  /** A broadcast tells every connected target once, on its own connection, and nobody else. */
  lemma {:induction false} BroadcastTells(targets: set<nat>, packet: Packet, fds: seq<int>, i: nat)
    requires |fds| == WIDTH && i <= WIDTH && packet.kind == INVALIDATE
    ensures Told(targets, fds, i) + Invalidated(Broadcast(targets, packet, fds, i)) == Told(targets, fds, |fds|)
    decreases |fds| - i
  {
    if i < WIDTH {
      var first := if i in targets then Send(fds[i], packet) else [];
      var rest := Broadcast(targets, packet, fds, i + 1);
      BroadcastTells(targets, packet, fds, i + 1);
      InvalidatedConcat(first, rest);
      InvalidatedOne(fds[i], packet);
      Regroup(Told(targets, fds, i), Invalidated(first), Invalidated(rest));
    }
  }

  lemma Regroup<T>(a: seq<T>, b: seq<T>, c: seq<T>)
    ensures (a + b) + c == a + (b + c)
  {
  }

  lemma BroadcastTellsAll(targets: set<nat>, packet: Packet, fds: seq<int>)
    requires |fds| == WIDTH && packet.kind == INVALIDATE
    ensures Invalidated(Broadcast(targets, packet, fds, 0)) == Told(targets, fds, |fds|)
  {
    BroadcastTells(targets, packet, fds, 0);
    assert Told(targets, fds, 0) == [];
  }

  /** All packets of a broadcast are the same one, each to a connected target. */
  lemma {:induction false} BroadcastMembers(targets: set<nat>, packet: Packet, fds: seq<int>, i: nat)
    requires |fds| == WIDTH && i <= WIDTH
    ensures forall x <- Broadcast(targets, packet, fds, i) ::
              x.packet == packet && x.fd != -1 && exists m: nat :: m < WIDTH && m in targets && fds[m] == x.fd
    ensures (exists m: nat :: i <= m < WIDTH && m in targets && fds[m] != -1) ==> Broadcast(targets, packet, fds, i) != []
    decreases |fds| - i
  {
    if i < WIDTH {
      BroadcastMembers(targets, packet, fds, i + 1);
    }
  }

  lemma {:induction false} ToldCount(targets: set<nat>, fds: seq<int>, k: nat)
    requires k <= |fds|
    ensures |Told(targets, fds, k)| == |set m: nat | m < k && m in targets && fds[m] != -1|
    decreases k
  {
    var now := set m: nat | m < k && m in targets && fds[m] != -1;
    if k == 0 {
      assert now == {};
    } else {
      ToldCount(targets, fds, k - 1);
      var before := set m: nat | m < k - 1 && m in targets && fds[m] != -1;
      assert now == if k - 1 in targets && fds[k - 1] != -1 then before + {k - 1} else before;
    }
  }
}
