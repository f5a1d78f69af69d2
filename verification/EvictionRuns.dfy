/** Whole runs of marks and sweeps: second chance and exhaustion. */
module EvictionRuns {
  import opened Eviction

  datatype Op = Mark(entry: nat) | Sweep(busy: set<nat>)

  /** d follows c by the operation. */
  ghost predicate Follows(c: Clock, op: Op, d: Clock) {
    match op
    case Mark(i) => d == Marked(c, i)
    case Sweep(busy) => FindsNothing(c, busy, d) || exists v: nat :: Evicts(c, busy, v, d)
  }

  /** clocks[k+1] follows clocks[k] by ops[k]. */
  ghost predicate History(clocks: seq<Clock>, ops: seq<Op>) {
    && |clocks| == |ops| + 1
    && forall k :: 0 <= k < |ops| ==> Follows(clocks[k], ops[k], clocks[k + 1])
  }

  lemma VictimIsCandidate(c: Clock, busy: set<nat>, v: nat, d: Clock)
    requires Evicts(c, busy, v, d)
    ensures !NoCandidate(c.ring, busy)
  {
    assert Candidate(c.ring, busy, v);
  }

  /** A failing sweep and a successful one exclude each other, and so do two different victims. */
  lemma SweepDetermined(c: Clock, busy: set<nat>, d: Clock, e: Clock)
    requires Follows(c, Sweep(busy), d) && Follows(c, Sweep(busy), e)
    ensures d == e
    ensures FindsNothing(c, busy, d) <==> NoCandidate(c.ring, busy)
  {
    if v: nat :| Evicts(c, busy, v, d) {
      VictimIsCandidate(c, busy, v, d);
      var w: nat :| Evicts(c, busy, w, e);
      SameVictim(c, busy, v, w, d, e);
    } else if w: nat :| Evicts(c, busy, w, e) {
      VictimIsCandidate(c, busy, w, e);
    }
  }

  lemma SameVictim(c: Clock, busy: set<nat>, v: nat, w: nat, d: Clock, e: Clock)
    requires Evicts(c, busy, v, d) && Evicts(c, busy, w, e)
    ensures d == e
  {
    VictimUnique(c.ring, c.hand, busy);
  }

  /** After an eviction, the next sweep looks for its victim from the entry behind the last one: with no bit set,
      entries leave in circular order. */
  lemma NextVictim(c: Clock, busy: set<nat>, v: nat, d: Clock, after: set<nat>, w: nat, e: Clock, i: nat)
    requires Evicts(c, busy, v, d) && Evicts(d, after, w, e)
    requires i < |d.ring| && Candidate(d.ring, after, i) && !d.ring[i].accessed
    ensures var next := if v + 1 == |c.ring| then 0 else v + 1;
      Distance(|d.ring|, next, w) <= Distance(|d.ring|, next, i)
  {
    Behind(v, |c.ring|);
    assert Candidate(d.ring, after, w);
  }

  lemma Behind(v: nat, n: nat)
    requires v < n
    ensures (v + 1) % n == if v + 1 == n then 0 else v + 1
  {
  }

  // ---- Marks ----

  /** A mark sets one bit and nothing else. */
  lemma MarkedOnly(c: Clock, i: nat, j: nat)
    requires j < |c.ring|
    ensures var d := Marked(c, i);
      && |d.ring| == |c.ring| && d.hand == c.hand
      && d.ring[j] == if i == j then c.ring[j].(accessed := true) else c.ring[j]
  {
  }

  /** No sweep sets a bit, and none changes which page an entry is for. */
  lemma SweepSetsNoBit(c: Clock, busy: set<nat>, d: Clock, j: nat)
    requires Follows(c, Sweep(busy), d) && j < |c.ring|
    ensures |d.ring| == |c.ring| && d.ring[j].pageIndex == c.ring[j].pageIndex
    ensures d.ring[j].accessed ==> c.ring[j].accessed
  {
    if v: nat :| Evicts(c, busy, v, d) {
    }
  }

  /** Over every history: an entry is accessed at the end only if it was at the start or has been marked since, so
      only marked pages get their second chance. */
  lemma {:induction false} BitsComeFromMarks(clocks: seq<Clock>, ops: seq<Op>, j: nat)
    requires History(clocks, ops) && j < |clocks[0].ring|
    ensures |clocks[|ops|].ring| == |clocks[0].ring| && clocks[|ops|].ring[j].pageIndex == clocks[0].ring[j].pageIndex
    ensures clocks[|ops|].ring[j].accessed ==> clocks[0].ring[j].accessed || Mark(j) in ops
    decreases |ops|
  {
    if ops != [] {
      LaterHistory(clocks, ops);
      match ops[0] {
        case Mark(i) => MarkedOnly(clocks[0], i, j);
        case Sweep(busy) => SweepSetsNoBit(clocks[0], busy, clocks[1], j);
      }
      BitsComeFromMarks(clocks[1..], ops[1..], j);
    }
  }

  // ---- Second chance ----

  /** During the operation the hand passes over entry i while its mutex is free, without taking it. */
  ghost predicate Passes(c: Clock, op: Op, i: nat) {
    && op.Sweep? && c.hand < |c.ring| && i < |c.ring| && i !in op.busy
    && (NoCandidate(c.ring, op.busy)
        || exists v: nat :: IsVictim(c.ring, c.hand, op.busy, v) && Distance(|c.ring|, c.hand, i) < Steps(c.ring, c.hand, v))
  }

  /** An accessed entry that the hand does not pass stays accessed and stays resident. */
  lemma BitStays(c: Clock, op: Op, d: Clock, i: nat)
    requires Follows(c, op, d) && i < |c.ring| && c.ring[i].accessed && !Passes(c, op, i)
    ensures i < |d.ring| && d.ring[i].accessed && d.ring[i].resident == c.ring[i].resident
  {
    if op.Sweep? && !FindsNothing(c, op.busy, d) {
      var v: nat :| Evicts(c, op.busy, v, d);
      assert i in op.busy || Distance(|c.ring|, c.hand, i) >= Steps(c.ring, c.hand, v);
    }
  }

  /** A page marked as accessed survives the hand's next pass: if a later sweep evicts it, the hand passed
      over it at least once in between, or on that sweep's first turn. */
  lemma {:induction false} SecondChance(clocks: seq<Clock>, ops: seq<Op>, a: nat, b: nat, i: nat)
    requires History(clocks, ops) && a < b < |ops| && i < |clocks[a].ring|
    requires ops[a] == Mark(i)
    ensures (exists k :: a < k <= b && Passes(clocks[k], ops[k], i))
         || (i < |clocks[b].ring| && i < |clocks[b + 1].ring| && clocks[b + 1].ring[i].resident == clocks[b].ring[i].resident)
  {
    if forall k :: a < k <= b ==> !Passes(clocks[k], ops[k], i) {
      assert Follows(clocks[a], ops[a], clocks[a + 1]);
      StaysMarked(clocks, ops, a + 1, b, i);
      BitStays(clocks[b], ops[b], clocks[b + 1], i);
    }
  }

  lemma {:induction false} StaysMarked(clocks: seq<Clock>, ops: seq<Op>, a: nat, b: nat, i: nat)
    requires History(clocks, ops) && a <= b < |ops| && i < |clocks[a].ring| && clocks[a].ring[i].accessed
    requires forall k :: a <= k < b ==> !Passes(clocks[k], ops[k], i)
    ensures i < |clocks[b].ring| && clocks[b].ring[i].accessed
    decreases b - a
  {
    if a < b {
      assert Follows(clocks[a], ops[a], clocks[a + 1]);
      BitStays(clocks[a], ops[a], clocks[a + 1], i);
      StaysMarked(clocks, ops, a + 1, b, i);
    }
  }

  // ---- Exhaustion ----

  function Residents(r: Ring): set<nat> {
    set i: nat | i < |r| && r[i].resident
  }

  /** Each successful sweep removes exactly one resident page; nothing ever comes back. */
  lemma SweepRemovesOne(c: Clock, op: Op, d: Clock)
    requires Follows(c, op, d)
    ensures op.Mark? ==> Residents(d.ring) == Residents(c.ring)
    ensures op.Sweep? && FindsNothing(c, op.busy, d) ==> Residents(d.ring) == Residents(c.ring)
    ensures op.Sweep? && !NoCandidate(c.ring, op.busy) ==>
              exists v :: v in Residents(c.ring) && v !in op.busy && Residents(d.ring) == Residents(c.ring) - {v}
  {
    match op
    case Mark(i) =>
    case Sweep(busy) =>
      if FindsNothing(c, busy, d) {
        NothingRemoved(c, busy, d);
      } else {
        var v: nat :| Evicts(c, busy, v, d);
        VictimRemoved(c, busy, v, d);
      }
  }

  lemma NothingRemoved(c: Clock, busy: set<nat>, d: Clock)
    requires FindsNothing(c, busy, d)
    ensures Residents(d.ring) == Residents(c.ring)
  {
    assert forall i: nat :: i < |c.ring| ==> d.ring[i].resident == c.ring[i].resident;
  }

  lemma VictimRemoved(c: Clock, busy: set<nat>, v: nat, d: Clock)
    requires Evicts(c, busy, v, d)
    ensures v in Residents(c.ring) && v !in busy && Residents(d.ring) == Residents(c.ring) - {v}
  {
    assert forall i: nat :: i < |c.ring| && i != v ==> d.ring[i].resident == c.ring[i].resident;
  }

  function Sweeps(ops: seq<Op>): nat {
    if ops == [] then 0 else Sweeps(ops[1..]) + if ops[0].Sweep? then 1 else 0
  }

  lemma NothingLeft(r: Ring)
    ensures NoCandidate(r, {}) <==> |Residents(r)| == 0
  {
    assert forall i: nat :: i < |r| ==> (r[i].resident <==> Candidate(r, {}, i));
    if !NoCandidate(r, {}) {
      var i: nat :| i < |r| && Candidate(r, {}, i);
      assert i in Residents(r);
    } else {
      assert Residents(r) == {};
    }
  }

  /** With no entry busy, a sweep evicts a page if any is left. */
  lemma SweepCounts(c: Clock, op: Op, d: Clock)
    requires Follows(c, op, d) && (op.Sweep? ==> op.busy == {})
    ensures |Residents(d.ring)| == |Residents(c.ring)| - if op.Sweep? && |Residents(c.ring)| > 0 then 1 else 0
  {
    NothingLeft(c.ring);
    SweepRemovesOne(c, op, d);
    if op.Sweep? {
      SweepDetermined(c, {}, d, d);
    }
  }

  lemma LaterHistory(clocks: seq<Clock>, ops: seq<Op>)
    requires History(clocks, ops) && ops != []
    ensures History(clocks[1..], ops[1..]) && Follows(clocks[0], ops[0], clocks[1])
  {
    forall k | 0 <= k < |ops[1..]|
      ensures Follows(clocks[1..][k], ops[1..][k], clocks[1..][k + 1])
    {
      assert Follows(clocks[k + 1], ops[k + 1], clocks[k + 1 + 1]);
    }
  }

  /** With no entry busy, k sweeps evict k pages or all of them, whatever is marked in between; so r
      resident pages are gone after r sweeps, and then, and only then, a sweep finds nothing. */
  lemma {:induction false} SweepsExhaust(clocks: seq<Clock>, ops: seq<Op>)
    requires History(clocks, ops) && forall op <- ops :: op.Sweep? ==> op.busy == {}
    ensures |Residents(clocks[|ops|].ring)|
         == if Sweeps(ops) < |Residents(clocks[0].ring)| then |Residents(clocks[0].ring)| - Sweeps(ops) else 0
    ensures NoCandidate(clocks[|ops|].ring, {}) <==> Sweeps(ops) >= |Residents(clocks[0].ring)|
    decreases |ops|
  {
    NothingLeft(clocks[|ops|].ring);
    if ops != [] {
      LaterHistory(clocks, ops);
      SweepCounts(clocks[0], ops[0], clocks[1]);
      SweepsExhaust(clocks[1..], ops[1..]);
    }
  }
}
