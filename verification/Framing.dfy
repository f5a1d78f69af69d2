/** Packets as bytes: the packed 4109-byte layout of network.h, the partial-send loop and the receive loop
    of network_engine.c. */
module Framing {
  import opened Wire

  // ---- Little-endian integers ----

  function Pow256(width: nat): nat {
    if width == 0 then 1 else 256 * Pow256(width - 1)
  }

  function ToBytes(x: nat, width: nat): (s: seq<byte>)
    ensures |s| == width
    decreases x + width
  {
    if width == 0 then [] else [(x % 256) as byte] + ToBytes(x / 256, width - 1)
  }

  function FromBytes(s: seq<byte>): nat {
    if s == [] then 0 else s[0] as nat + 256 * FromBytes(s[1..])
  }

  lemma {:induction false} FromTo(x: nat, width: nat)
    requires x < Pow256(width)
    ensures FromBytes(ToBytes(x, width)) == x
    decreases width
  {
    if width > 0 {
      var s := ToBytes(x, width);
      FromTo(x / 256, width - 1);
      assert s[1..] == ToBytes(x / 256, width - 1);
    }
  }

  lemma {:induction false} ToFrom(s: seq<byte>)
    ensures FromBytes(s) < Pow256(|s|)
    ensures ToBytes(FromBytes(s), |s|) == s
    decreases |s|
  {
    if s != [] {
      ToFrom(s[1..]);
      var x := FromBytes(s);
      assert x % 256 == s[0] as nat && x / 256 == FromBytes(s[1..]);
      assert ToBytes(x, |s|) == [s[0]] + ToBytes(x / 256, |s[1..]|) == [s[0]] + s[1..];
    }
  }

  // ---- struct dsm_packet, packed ----

  const PAGE_INDEX_BYTES: nat := 8
  const SENDER_BYTES: nat := 4
  const PAYLOAD_AT: nat := 13
  const PACKET_SIZE: nat := 4109

  /** The field values the C struct can hold. */
  predicate Encodable(p: Packet) {
    p.kind < 256 && p.page < Pow256(PAGE_INDEX_BYTES) && p.sender < Pow256(SENDER_BYTES) && |p.payload| == PAGE_SIZE
  }

  function Encode(p: Packet): (s: seq<byte>)
    requires Encodable(p)
    ensures |s| == PACKET_SIZE
  {
    [p.kind as byte] + ToBytes(p.page, PAGE_INDEX_BYTES) + ToBytes(p.sender, SENDER_BYTES) + p.payload
  }

  function Decode(s: seq<byte>): Packet
    requires |s| == PACKET_SIZE
  {
    Packet(s[0] as nat, FromBytes(s[1..9]), FromBytes(s[9..PAYLOAD_AT]), s[PAYLOAD_AT..])
  }

  lemma DecodeEncode(p: Packet)
    requires Encodable(p)
    ensures Decode(Encode(p)) == p
  {
    var s := Encode(p);
    FromTo(p.page, PAGE_INDEX_BYTES);
    FromTo(p.sender, SENDER_BYTES);
    assert s[1..9] == ToBytes(p.page, PAGE_INDEX_BYTES);
    assert s[9..PAYLOAD_AT] == ToBytes(p.sender, SENDER_BYTES);
    assert s[PAYLOAD_AT..] == p.payload;
  }

  /** Digit i of x in base 256. */
  function Digit(x: nat, i: nat): nat {
    if i == 0 then x % 256 else Digit(x / 256, i - 1)
  }

  /** The low byte comes first. */
  lemma {:induction false} ToBytesAt(x: nat, width: nat, i: nat)
    requires i < width
    ensures ToBytes(x, width)[i] as nat == Digit(x, i)
    decreases width
  {
    if i > 0 {
      ToBytesAt(x / 256, width - 1, i - 1);
      assert ToBytes(x, width) == [(x % 256) as byte] + ToBytes(x / 256, width - 1);
    }
  }

  /** Where each field lies, byte by byte: the type, the page index and the sender with their low bytes first, the contents. */
  lemma EncodeLayout(p: Packet, i: nat)
    requires Encodable(p) && i < PACKET_SIZE
    ensures Encode(p)[i] as nat
            == if i == 0 then p.kind
               else if i < 9 then Digit(p.page, i - 1)
               else if i < PAYLOAD_AT then Digit(p.sender, i - 9)
               else p.payload[i - PAYLOAD_AT] as nat
  {
    var page, sender := ToBytes(p.page, PAGE_INDEX_BYTES), ToBytes(p.sender, SENDER_BYTES);
    assert Encode(p) == [p.kind as byte] + page + sender + p.payload;
    if 1 <= i < 9 {
      ToBytesAt(p.page, PAGE_INDEX_BYTES, i - 1);
    } else if 9 <= i < PAYLOAD_AT {
      ToBytesAt(p.sender, SENDER_BYTES, i - 9);
    }
  }

  /** Every 4109 bytes are a packet. */
  lemma EncodeDecode(s: seq<byte>)
    requires |s| == PACKET_SIZE
    ensures Encodable(Decode(s)) && Encode(Decode(s)) == s
  {
    ToFrom(s[1..9]);
    ToFrom(s[9..PAYLOAD_AT]);
    assert s == [s[0]] + s[1..9] + s[9..PAYLOAD_AT] + s[PAYLOAD_AT..];
  }

  // ---- Streams of packets ----

  predicate AllEncodable(ps: seq<Packet>) {
    forall p <- ps :: Encodable(p)
  }

  function EncodeAll(ps: seq<Packet>): seq<byte>
    requires AllEncodable(ps)
  {
    if ps == [] then [] else Encode(ps[0]) + EncodeAll(ps[1..])
  }

  lemma {:induction false} EncodeAppend(ps: seq<Packet>, p: Packet)
    requires AllEncodable(ps) && Encodable(p)
    ensures EncodeAll(ps + [p]) == EncodeAll(ps) + Encode(p)
    decreases |ps|
  {
    var all := ps + [p];
    if ps == [] {
      assert all[1..] == [];
    } else {
      assert all[1..] == ps[1..] + [p];
      EncodeAppend(ps[1..], p);
    }
  }

  /** A proper prefix of packet number n. */
  predicate StartsNext(rest: seq<byte>, ps: seq<Packet>, n: nat)
    requires AllEncodable(ps)
  {
    n < |ps| && rest < Encode(ps[n])
  }

  lemma CancelFront(a: seq<byte>, x: seq<byte>, b: seq<byte>, y: seq<byte>)
    requires |a| == |b| && a + x <= b + y
    ensures a == b && x <= y
  {
    assert a == (a + x)[..|a|] == (b + y)[..|a|] == b;
    assert x == (a + x)[|a|..] && y == (b + y)[|a|..];
    assert x == y[..|x|];
  }

  lemma CancelFirst(a: seq<byte>, x: seq<byte>, rest: seq<byte>, b: seq<byte>, y: seq<byte>)
    requires |a| == |b| && a + x + rest <= b + y
    ensures a == b && x + rest <= y
  {
    assert a + x + rest == a + (x + rest);
    CancelFront(a, x + rest, b, y);
  }

  lemma {:induction false} EncodedLength(ps: seq<Packet>)
    requires AllEncodable(ps)
    ensures |EncodeAll(ps)| == PACKET_SIZE * |ps|
    decreases |ps|
  {
    if ps != [] {
      EncodedLength(ps[1..]);
    }
  }

  lemma EncodeInjective(p: Packet, q: Packet)
    requires Encodable(p) && Encodable(q) && Encode(p) == Encode(q)
    ensures p == q
  {
    DecodeEncode(p);
    DecodeEncode(q);
  }

  /** A short prefix of a stream starts, properly, the first packet. */
  lemma ShortPrefix(rest: seq<byte>, ps: seq<Packet>)
    requires AllEncodable(ps) && |rest| < PACKET_SIZE && rest <= EncodeAll(ps)
    ensures rest == [] || (ps != [] && rest < Encode(ps[0]))
  {
    if ps != [] {
      PrefixOfFirst(rest, Encode(ps[0]), EncodeAll(ps[1..]));
    }
  }

  lemma PrefixOfFirst(rest: seq<byte>, first: seq<byte>, more: seq<byte>)
    requires rest <= first + more && |rest| < |first|
    ensures rest < first
  {
    assert rest == (first + more)[..|rest|] == first[..|rest|];
  }

  /** If two streams start with a packet each and one is a prefix of the other, so they do after it. */
  lemma SameFirst(ps: seq<Packet>, qs: seq<Packet>, rest: seq<byte>)
    requires AllEncodable(ps) && AllEncodable(qs) && ps != [] && qs != []
    requires EncodeAll(qs) + rest <= EncodeAll(ps)
    ensures qs[0] == ps[0] && EncodeAll(qs[1..]) + rest <= EncodeAll(ps[1..])
  {
    CancelFirst(Encode(qs[0]), EncodeAll(qs[1..]), rest, Encode(ps[0]), EncodeAll(ps[1..]));
    EncodeInjective(qs[0], ps[0]);
  }

  /** Whatever has been cut into whole packets and a shorter rest, if it is a prefix of the encoding of ps,
      then the packets are the first of ps and the rest is a proper prefix of the next one. */
  lemma {:induction false} UniqueParse(ps: seq<Packet>, qs: seq<Packet>, rest: seq<byte>)
    requires AllEncodable(ps) && AllEncodable(qs) && |rest| < PACKET_SIZE
    requires EncodeAll(qs) + rest <= EncodeAll(ps)
    ensures qs <= ps
    ensures rest == [] || StartsNext(rest, ps, |qs|)
    decreases |qs|
  {
    if qs == [] {
      assert EncodeAll(qs) + rest == rest;
      ShortPrefix(rest, ps);
    } else {
      EncodedLength(qs);
      assert ps != [];
      SameFirst(ps, qs, rest);
      UniqueParse(ps[1..], qs[1..], rest);
      assert qs == [qs[0]] + qs[1..] && ps == [ps[0]] + ps[1..];
    }
  }

  // ---- Sending ----

  /** What one send() or the poll() after it reports. */
  datatype SendOutcome = Accepted(count: nat) | WouldBlock(writable: bool) | Failed

  /** The socket does not forever take nothing, or refuse although it was polled as writable. */
  ghost predicate Progresses(outcome: nat -> SendOutcome, patience: nat) {
    forall i :: i >= patience ==> outcome(i) != WouldBlock(true) && outcome(i) != Accepted(0)
  }

  class Connection {
    /** The bytes put on the wire. */
    var wire: seq<byte>

    constructor ()
      ensures wire == []
    {
      wire := [];
    }

    /** send_all_nonblocking: all of buf, or -1 with a proper prefix of it on the wire. */
    method SendAll(buf: seq<byte>, outcome: nat -> SendOutcome, ghost patience: nat) returns (result: int)
      requires Progresses(outcome, patience)
      modifies this
      ensures result == |buf| || result == -1
      ensures result == |buf| ==> wire == old(wire) + buf
      ensures result == -1 ==> exists k: nat :: k < |buf| && wire == old(wire) + buf[..k]
    {
      var totalSent, calls := 0, 0;
      assert buf[..0] == [];
      while totalSent < |buf|
        invariant 0 <= totalSent <= |buf|
        invariant wire == old(wire) + buf[..totalSent]
        decreases |buf| - totalSent, if patience > calls then patience - calls else 0
      {
        var o := outcome(calls);
        calls := calls + 1;
        match o
        case Accepted(n) =>
          var sent := if n < |buf| - totalSent then n else |buf| - totalSent;
          wire := wire + buf[totalSent..totalSent + sent];
          assert buf[..totalSent] + buf[totalSent..totalSent + sent] == buf[..totalSent + sent];
          totalSent := totalSent + sent;
        case WouldBlock(writable) =>
          if !writable {
            return -1;
          }
        case Failed =>
          return -1;
      }
      assert buf[..totalSent] == buf;
      result := totalSent;
    }

    /** A packet leaves whole, or the send fails inside it: the wire carries the encodings of the packets sent so far. */
    method SendPacket(p: Packet, ghost before: seq<Packet>, outcome: nat -> SendOutcome, ghost patience: nat) returns (result: int)
      requires Progresses(outcome, patience) && Encodable(p)
      requires AllEncodable(before) && wire == EncodeAll(before)
      modifies this
      ensures result == PACKET_SIZE || result == -1
      ensures result == PACKET_SIZE ==> wire == EncodeAll(before + [p])
      ensures result == -1 ==> exists k: nat :: k < PACKET_SIZE && wire == EncodeAll(before) + Encode(p)[..k]
    {
      result := SendAll(Encode(p), outcome, patience);
      EncodeAppend(before, p);
    }
  }

  // ---- Receiving ----

  /** peer_session_t */
  class PeerSession {
    const buffer: array<byte>
    var bytesRead: nat
    /** Packets handed to the dispatcher, in order. */
    var dispatched: seq<Packet>
    /** All bytes received on the connection. */
    ghost var received: seq<byte>

    /** What has been received is the dispatched packets followed by the buffered start of the next one. */
    ghost predicate Valid()
      reads this, buffer
    {
      && buffer.Length == PACKET_SIZE
      && bytesRead < PACKET_SIZE
      && AllEncodable(dispatched)
      && received == EncodeAll(dispatched) + buffer[..bytesRead]
    }

    constructor ()
      ensures Valid() && dispatched == [] && received == [] && fresh(buffer)
    {
      buffer := new byte[PACKET_SIZE](_ => 0);
      bytesRead := 0;
      dispatched := [];
      received := [];
    }

    /** One successful recv: `chunk` is what the kernel copies behind the bytes already buffered. */
    method Receive(chunk: seq<byte>)
      requires Valid() && 0 < |chunk| <= PACKET_SIZE - bytesRead
      modifies this, buffer
      ensures Valid() && received == old(received) + chunk
    {
      Copy(chunk);
      if bytesRead == PACKET_SIZE {
        Dispatch();
      }
    }

    method Copy(chunk: seq<byte>)
      requires buffer.Length == PACKET_SIZE && |chunk| <= PACKET_SIZE - bytesRead
      modifies this`bytesRead, this`received, buffer
      ensures bytesRead == old(bytesRead) + |chunk| && received == old(received) + chunk
      ensures buffer[..bytesRead] == old(buffer[..bytesRead]) + chunk
    {
      var at := bytesRead;
      forall i | 0 <= i < |chunk| {
        buffer[at + i] := chunk[i];
      }
      bytesRead := at + |chunk|;
      received := received + chunk;
    }

    /** The buffer holds a whole packet. */
    method Dispatch()
      requires buffer.Length == PACKET_SIZE == bytesRead
      requires AllEncodable(dispatched) && received == EncodeAll(dispatched) + buffer[..]
      modifies this`bytesRead, this`dispatched, buffer
      ensures Valid() && bytesRead == 0
      ensures dispatched == old(dispatched) + [Decode(old(buffer[..]))]
    {
      var packet := Decode(buffer[..]);
      EncodeDecode(buffer[..]);
      EncodeAppend(dispatched, packet);
      dispatched := dispatched + [packet];
      bytesRead := 0;
      forall i | 0 <= i < buffer.Length {
        buffer[i] := 0;
      }
      assert buffer[..0] == [];
      assert received == EncodeAll(dispatched) + buffer[..0];
    }

    /** The connection is readable with `incoming` bytes waiting. recv is called until it would
        block or reports the end or an error of the connection; call number i returns at most limit(i) bytes, and is always asked for at least one. */
    method OnReadable(incoming: seq<byte>, limit: nat -> nat, ends: bool) returns (closed: bool)
      requires Valid() && forall i :: limit(i) > 0
      modifies this, buffer
      ensures Valid() && received == old(received) + incoming
      ensures closed == ends
    {
      var at, calls := 0, 0;
      var readDone := false;
      closed := false;
      assert incoming[..0] == [];
      while !closed && !readDone
        invariant 0 <= at <= |incoming|
        invariant Valid() && received == old(received) + incoming[..at]
        invariant readDone || closed ==> at == |incoming| && closed == ends
        decreases |incoming| - at, !readDone && !closed
      {
        var asked := PACKET_SIZE - bytesRead;
        assert asked > 0;
        if at == |incoming| {
          if ends {
            closed := true;
          } else {
            readDone := true;
          }
        } else {
          var n := if limit(calls) < asked then limit(calls) else asked;
          n := if n < |incoming| - at then n else |incoming| - at;
          Receive(incoming[at..at + n]);
          assert incoming[..at] + incoming[at..at + n] == incoming[..at + n];
          at := at + n;
        }
        calls := calls + 1;
      }
      assert incoming[..at] == incoming;
    }
  }

  function Flatten(chunks: seq<seq<byte>>): seq<byte> {
    if chunks == [] then [] else chunks[0] + Flatten(chunks[1..])
  }

  /** Any number of readable events, each with any number of bytes and any limits; the last may end the
      connection. */
  method ReceiveEvents(s: PeerSession, events: seq<seq<byte>>, limits: nat -> nat -> nat, ends: bool)
    requires s.Valid() && forall e, i :: limits(e)(i) > 0
    modifies s, s.buffer
    ensures s.Valid() && s.received == old(s.received) + Flatten(events)
  {
    ghost var start := s.received;
    var k := 0;
    while k < |events|
      invariant 0 <= k <= |events|
      invariant s.Valid() && s.received + Flatten(events[k..]) == start + Flatten(events)
    {
      ghost var before := s.received;
      var closed := s.OnReadable(events[k], limits(k), ends && k + 1 == |events|);
      assert before + (events[k] + Flatten(events[k + 1..])) == (before + events[k]) + Flatten(events[k + 1..]);
      assert events[k..][1..] == events[k + 1..];
      k := k + 1;
    }
    assert events[k..] == [];
  }

  /** The framing round trip. However the bytes of the packets ps are split, what has been dispatched is a
      prefix of ps, what is buffered is a proper prefix of the next packet, and once all bytes are in, the
      packets dispatched are exactly ps and nothing is buffered. */
  lemma FramingRoundTrip(ps: seq<Packet>, received: seq<byte>, dispatched: seq<Packet>, buffered: seq<byte>)
    requires AllEncodable(ps) && AllEncodable(dispatched) && |buffered| < PACKET_SIZE
    requires received == EncodeAll(dispatched) + buffered && received <= EncodeAll(ps)
    ensures dispatched <= ps && (buffered == [] || StartsNext(buffered, ps, |dispatched|))
    ensures received == EncodeAll(ps) ==> dispatched == ps && buffered == []
  {
    UniqueParse(ps, dispatched, buffered);
    if received == EncodeAll(ps) {
      WholeStream(ps, dispatched, buffered);
    }
  }

  lemma WholeStream(ps: seq<Packet>, dispatched: seq<Packet>, buffered: seq<byte>)
    requires AllEncodable(ps) && AllEncodable(dispatched) && |buffered| < PACKET_SIZE
    requires dispatched <= ps && EncodeAll(dispatched) + buffered == EncodeAll(ps)
    ensures dispatched == ps && buffered == []
  {
    EncodedLength(ps);
    EncodedLength(dispatched);
    assert |EncodeAll(dispatched)| + |buffered| == |EncodeAll(ps)|;
    SameLength(dispatched, ps, |buffered|);
  }

  lemma SameLength<T>(a: seq<T>, b: seq<T>, rest: nat)
    requires a <= b && PACKET_SIZE * |a| + rest == PACKET_SIZE * |b| && rest < PACKET_SIZE
    ensures a == b && rest == 0
  {
    assert |a| == |b|;
  }

  /** A new connection over which the packets ps are sent. The readable events bring a prefix of the wire, cut
      at any points. */
  method ReceiveStream(ghost ps: seq<Packet>, events: seq<seq<byte>>, limits: nat -> nat -> nat, ends: bool)
    returns (s: PeerSession)
    requires forall e, i :: limits(e)(i) > 0
    requires AllEncodable(ps) && Flatten(events) <= EncodeAll(ps)
    ensures fresh(s) && s.Valid() && s.dispatched <= ps
    ensures s.bytesRead == 0 || StartsNext(s.buffer[..s.bytesRead], ps, |s.dispatched|)
    ensures Flatten(events) == EncodeAll(ps) ==> s.dispatched == ps && s.bytesRead == 0
  {
    s := new PeerSession();
    ReceiveEvents(s, events, limits, ends);
    FramingRoundTrip(ps, s.received, s.dispatched, s.buffer[..s.bytesRead]);
  }
}
