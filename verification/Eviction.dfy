/** The clock sweep of eviction.c: a declarative account of one sweep, the in-place loop that performs it,
    and what follows over whole runs of marks and sweeps. */
module Eviction {
  import opened Wire
  import opened Bitmap
  import opened Directory

  /** local_page_tracker_t; the page contents at base_addr are kept beside it. */
  datatype Tracker = Tracker(pageIndex: nat, resident: bool, accessed: bool)

  type Ring = seq<Tracker>

  // ---- One sweep, without a loop ----

  /** How many entries the hand inspects before entry i, on its first turn. */
  function Distance(n: nat, hand: nat, i: nat): (k: nat)
    requires hand < n && i < n
    ensures k < n
  {
    if hand <= i then i - hand else i + n - hand
  }

  /** Resident, and its mutex is free. */
  predicate Candidate(r: Ring, busy: set<nat>, i: nat)
    requires i < |r|
  {
    i !in busy && r[i].resident
  }

  /** The victim is the first candidate from the hand that has not been accessed; if all have been, it is
      the first candidate from the hand. */
  ghost predicate IsVictim(r: Ring, hand: nat, busy: set<nat>, v: nat)
    requires hand < |r|
  {
    && v < |r| && Candidate(r, busy, v)
    && if r[v].accessed
       then forall i: nat :: i < |r| && Candidate(r, busy, i) ==> r[i].accessed && Distance(|r|, hand, v) <= Distance(|r|, hand, i)
       else forall i: nat :: i < |r| && Candidate(r, busy, i) && !r[i].accessed ==> Distance(|r|, hand, v) <= Distance(|r|, hand, i)
  }

  ghost predicate NoCandidate(r: Ring, busy: set<nat>) {
    forall i: nat :: i < |r| ==> !Candidate(r, busy, i)
  }

  /** The steps the hand takes before it reaches the victim: a whole turn more if all were accessed. */
  function Steps(r: Ring, hand: nat, v: nat): nat
    requires hand < |r| && v < |r|
  {
    Distance(|r|, hand, v) + if r[v].accessed then |r| else 0
  }

  /** The ring after k steps of the hand: the bits of the free entries it met are cleared. */
  function Swept(r: Ring, hand: nat, busy: set<nat>, k: nat): (s: Ring)
    requires hand < |r|
    ensures |s| == |r|
    ensures forall i: nat :: i < |r| ==>
              s[i] == if i !in busy && Distance(|r|, hand, i) < k then r[i].(accessed := false) else r[i]
  {
    seq(|r|, i requires 0 <= i < |r| =>
      if i !in busy && Distance(|r|, hand, i) < k then r[i].(accessed := false) else r[i])
  }

  datatype Clock = Clock(ring: Ring, hand: nat)

  /** A successful sweep: exactly the bits passed over are cleared, the victim leaves, and the hand stops
      just behind it. */
  ghost predicate Evicts(c: Clock, busy: set<nat>, v: nat, d: Clock) {
    && c.hand < |c.ring|
    && IsVictim(c.ring, c.hand, busy, v)
    && d.ring == Swept(c.ring, c.hand, busy, Steps(c.ring, c.hand, v))[v := c.ring[v].(resident := false, accessed := false)]
    && d.hand == (v + 1) % |c.ring|
  }

  /** A sweep that finds nothing: two whole turns, which clear every free bit and bring the hand back. */
  ghost predicate FindsNothing(c: Clock, busy: set<nat>, d: Clock) {
    && NoCandidate(c.ring, busy)
    && d.hand == c.hand
    && (if c.ring == [] then d.ring == [] else c.hand < |c.ring| && d.ring == Swept(c.ring, c.hand, busy, |c.ring|))
  }

  lemma {:induction false} Nearest(n: nat, hand: nat, entries: set<nat>) returns (v: nat)
    requires hand < n && entries != {} && forall i <- entries :: i < n
    ensures v in entries && forall i <- entries :: Distance(n, hand, v) <= Distance(n, hand, i)
    decreases entries
  {
    var u :| u in entries;
    var rest := entries - {u};
    v := u;
    if rest != {} {
      var w := Nearest(n, hand, rest);
      if Distance(n, hand, w) < Distance(n, hand, u) {
        v := w;
      }
    }
    forall i | i in entries
      ensures Distance(n, hand, v) <= Distance(n, hand, i)
    {
      assert i == u || i in rest;
    }
  }

  /** A sweep's outcome is determined: there is at most one victim, and there is one exactly when there is a
      candidate. */
  lemma VictimUnique(r: Ring, hand: nat, busy: set<nat>)
    requires hand < |r|
    ensures forall v: nat, w: nat :: IsVictim(r, hand, busy, v) && IsVictim(r, hand, busy, w) ==> v == w
    ensures (exists v: nat :: IsVictim(r, hand, busy, v)) <==> !NoCandidate(r, busy)
  {
    var free := set i: nat | i < |r| && Candidate(r, busy, i);
    var clear := set i: nat | i < |r| && Candidate(r, busy, i) && !r[i].accessed;
    if !NoCandidate(r, busy) {
      var i: nat :| i < |r| && Candidate(r, busy, i);
      assert i in free;
      var v := Nearest(|r|, hand, if clear != {} then clear else free);
      assert clear == {} ==> forall j: nat :: j < |r| && Candidate(r, busy, j) ==> j in free && j !in clear;
      assert IsVictim(r, hand, busy, v);
    }
  }

  // ---- The sweep in progress ----

  /** Where the hand is after k <= 2n steps. */
  function HandAfter(n: nat, hand: nat, k: nat): nat
    requires hand < n && k <= 2 * n
  {
    var x := hand + (if k < n then k else k - n);
    if x < n then x else x - n
  }

  /** After k steps without a victim: the bits passed over are cleared, every candidate passed on the first
      turn had been accessed, and none has been passed on the second. */
  ghost predicate Sweeping(r0: Ring, hand0: nat, busy: set<nat>, k: nat, r: Ring, hand: nat) {
    && hand0 < |r0| && k <= 2 * |r0|
    && r == Swept(r0, hand0, busy, k)
    && hand == HandAfter(|r0|, hand0, k)
    && (forall i: nat :: i < |r0| && Distance(|r0|, hand0, i) < k && Candidate(r0, busy, i) ==> r0[i].accessed)
    && (forall i: nat :: i < |r0| && Distance(|r0|, hand0, i) + |r0| < k ==> !Candidate(r0, busy, i))
  }

  lemma HandMoves(n: nat, hand: nat, k: nat)
    requires hand < n && k < 2 * n
    ensures var at := HandAfter(n, hand, k);
      && at < n && Distance(n, hand, at) == (if k < n then k else k - n)
      && (at + 1) % n == HandAfter(n, hand, k + 1)
    ensures forall i: nat :: i < n && Distance(n, hand, i) == (if k < n then k else k - n) ==> i == HandAfter(n, hand, k)
  {
    var at := HandAfter(n, hand, k);
    if at + 1 < n {
      assert (at + 1) % n == at + 1;
    } else {
      assert n % n == 0;
    }
  }

  /** An entry that is busy, accessed or not resident is passed over. */
  lemma PassOver(r0: Ring, hand0: nat, busy: set<nat>, k: nat, r: Ring, hand: nat, r': Ring)
    requires Sweeping(r0, hand0, busy, k, r, hand) && k < 2 * |r0| && hand < |r|
    requires hand in busy || r[hand].accessed || !r[hand].resident
    requires r' == if hand in busy then r else r[hand := r[hand].(accessed := false)]
    ensures Sweeping(r0, hand0, busy, k + 1, r', (hand + 1) % |r0|) && (hand + 1) % |r0| < |r0|
  {
    HandMoves(|r0|, hand0, k);
    SweptOneMore(r0, hand0, busy, k, r, hand, r');
  }

  lemma SweptOneMore(r0: Ring, hand0: nat, busy: set<nat>, k: nat, r: Ring, hand: nat, r': Ring)
    requires Sweeping(r0, hand0, busy, k, r, hand) && k < 2 * |r0| && hand < |r|
    requires r' == if hand in busy then r else r[hand := r[hand].(accessed := false)]
    ensures r' == Swept(r0, hand0, busy, k + 1)
  {
    HandMoves(|r0|, hand0, k);
    forall i: nat | i < |r0|
      ensures r'[i] == Swept(r0, hand0, busy, k + 1)[i]
    {
      if Distance(|r0|, hand0, i) == k {
        assert i == hand;
      }
    }
  }

  /** A free, resident entry whose bit is clear is the victim. */
  lemma VictimFound(r0: Ring, hand0: nat, busy: set<nat>, k: nat, r: Ring, hand: nat)
    requires Sweeping(r0, hand0, busy, k, r, hand) && k < 2 * |r0| && hand < |r|
    requires hand !in busy && !r[hand].accessed && r[hand].resident
    ensures Evicts(Clock(r0, hand0), busy, hand, Clock(r[hand := r[hand].(resident := false)], (hand + 1) % |r0|))
    ensures !NoCandidate(r0, busy) && r[hand].pageIndex == r0[hand].pageIndex
  {
    HandMoves(|r0|, hand0, k);
    assert k == Steps(r0, hand0, hand);
    assert Candidate(r0, busy, hand);
  }

  lemma SweepStarts(r: Ring, hand: nat, busy: set<nat>)
    requires hand < |r|
    ensures Sweeping(r, hand, busy, 0, r, hand)
  {
    assert r == Swept(r, hand, busy, 0);
  }

  lemma NothingFound(r0: Ring, hand0: nat, busy: set<nat>, r: Ring, hand: nat)
    requires Sweeping(r0, hand0, busy, 2 * |r0|, r, hand)
    ensures FindsNothing(Clock(r0, hand0), busy, Clock(r, hand)) && NoCandidate(r0, busy)
  {
    assert r == Swept(r0, hand0, busy, |r0|);
  }

  // ---- The loop ----

  class EvictionRing {
    const me: nat
    const ring: array<Tracker>
    const memory: array<Page>
    const dir: GlobalPageDirectory
    var clockHand: nat

    ghost predicate Valid()
      reads this, dir, dir.entries
    {
      me < WIDTH && memory.Length == ring.Length && (ring.Length > 0 ==> clockHand < ring.Length) && dir.Valid()
    }

    ghost function View(): Clock
      reads this, ring
    {
      Clock(ring[..], clockHand)
    }

    /** dsm_init_eviction_ring */
    constructor (me: nat, ring: array<Tracker>, memory: array<Page>, dir: GlobalPageDirectory)
      requires me < WIDTH && memory.Length == ring.Length && dir.Valid()
      ensures Valid() && this.me == me && this.ring == ring && this.memory == memory && this.dir == dir && clockHand == 0
    {
      this.me := me;
      this.ring := ring;
      this.memory := memory;
      this.dir := dir;
      clockHand := 0;
    }

    /** dsm_mark_accessed */
    method MarkAccessed(i: nat)
      requires Valid()
      modifies ring
      ensures Valid()
      ensures View() == Marked(old(View()), i)
    {
      if i < ring.Length {
        ring[i] := ring[i].(accessed := true);
      }
    }

    /** Lines 128-147: write a MODIFIED page back, drop the contents, and tell the directory. */
    method Evict(v: nat) returns (sent: seq<Packet>)
      requires Valid() && v < ring.Length
      modifies ring, memory, dir.entries
      ensures Valid()
      ensures ring[..] == old(ring[..])[v := old(ring[v]).(resident := false)]
      ensures memory[..] == old(memory[..])[v := ZeroPage()]
      ensures var p := old(ring[v]).pageIndex;
        && (p < dir.entries.Length ==> dir.At(p) == SetLocal(old(dir.At(p)), me, INVALID))
        && sent == (if p < dir.entries.Length && LocalView(old(dir.At(p)), me) == MODIFIED
                    then [Packet(SEND_PAGE, p, me, old(memory[v]))] else [])
        && forall q :: 0 <= q < dir.entries.Length && q != p ==> dir.entries[q] == old(dir.entries[q])
    {
      var state := dir.GetLocalState(ring[v].pageIndex, me);
      sent := [];
      if state == MODIFIED {
        sent := [Packet(SEND_PAGE, ring[v].pageIndex, me, memory[v])];
      }
      memory[v] := ZeroPage();
      ring[v] := ring[v].(resident := false);
      dir.SetLocalState(ring[v].pageIndex, me, INVALID);
    }

    /** Lines 106-126: advance the hand and look at one entry. */
    method Inspect(busy: set<nat>) returns (at: nat, isVictim: bool)
      requires Valid() && ring.Length > 0
      modifies this`clockHand, ring
      ensures at == old(clockHand) && clockHand == (at + 1) % ring.Length && Valid()
      ensures isVictim <==> at !in busy && !old(ring[..])[at].accessed && old(ring[..])[at].resident
      ensures ring[..] == if isVictim || at in busy then old(ring[..]) else old(ring[..])[at := old(ring[..])[at].(accessed := false)]
    {
      at := clockHand;
      clockHand := (clockHand + 1) % ring.Length;
      if at in busy {
        return at, false;
      }
      if ring[at].accessed {
        ring[at] := ring[at].(accessed := false);
        return at, false;
      }
      isVictim := ring[at].resident;
    }

    /** Lines 104-126: the loop. `busy` are the entries whose mutex other threads hold during the call. */
    method FindVictim(busy: set<nat>) returns (found: bool, victim: nat)
      requires Valid()
      modifies this`clockHand, ring
      ensures Valid()
      ensures found <==> !NoCandidate(old(ring[..]), busy)
      ensures found ==>
                && victim < ring.Length
                && Evicts(old(View()), busy, victim, Clock(ring[..][victim := ring[victim].(resident := false)], clockHand))
                && ring[victim].pageIndex == old(ring[..])[victim].pageIndex
      ensures !found ==> FindsNothing(old(View()), busy, View())
    {
      var n := ring.Length;
      if n == 0 {
        return false, 0;
      }
      ghost var r0, h0 := ring[..], clockHand;
      var iterations := 0;
      SweepStarts(r0, h0, busy);
      while iterations < n * 2
        invariant 0 <= iterations <= n * 2
        invariant Valid()
        invariant Sweeping(r0, h0, busy, iterations, ring[..], clockHand)
      {
        ghost var k, r := iterations, ring[..];
        var inspect, isVictim := Inspect(busy);
        iterations := iterations + 1;
        if isVictim {
          VictimFound(r0, h0, busy, k, r, inspect);
          return true, inspect;
        }
        PassOver(r0, h0, busy, k, r, inspect, ring[..]);
      }
      assert iterations == 2 * n;
      NothingFound(r0, h0, busy, ring[..], clockHand);
      return false, 0;
    }

    /** dsm_execute_eviction */
    method ExecuteEviction(busy: set<nat>) returns (result: int, ghost victim: nat, sent: seq<Packet>)
      requires Valid()
      modifies this`clockHand, ring, memory, dir.entries
      ensures Valid()
      ensures result == 0 || result == -1
      ensures result == -1 <==> old(NoCandidate(ring[..], busy))
      ensures result == 0 ==>
                && Evicts(old(View()), busy, victim, View())
                && memory[..] == old(memory[..])[victim := ZeroPage()]
                && var p := old(ring[..])[victim].pageIndex;
                && (p < dir.entries.Length ==> dir.At(p) == SetLocal(old(dir.At(p)), me, INVALID))
                && sent == (if p < dir.entries.Length && LocalView(old(dir.At(p)), me) == MODIFIED
                            then [Packet(SEND_PAGE, p, me, old(memory[..])[victim])] else [])
                && forall q :: 0 <= q < dir.entries.Length && q != p ==> dir.entries[q] == old(dir.entries[q])
      ensures result == -1 ==>
                && FindsNothing(old(View()), busy, View()) && sent == []
                && memory[..] == old(memory[..]) && dir.entries[..] == old(dir.entries[..])
    {
      var found, v := FindVictim(busy);
      victim := v;
      if !found {
        return -1, v, [];
      }
      assert memory[..][v] == memory[v];
      sent := Evict(v);
      result := 0;
    }
  }

  function Marked(c: Clock, i: nat): Clock {
    if i < |c.ring| then c.(ring := c.ring[i := c.ring[i].(accessed := true)]) else c
  }
}
