/** What holds in every reachable state of the coherence protocol. */
module ProtocolSafety {
  import opened Wire
  import opened Bitmap
  import opened Directory
  import opened SequencerSpec
  import opened Channels
  import opened PageStatus
  import opened Protocol
  import opened ProtocolInvariant

  // ---- Every step keeps the invariant ----

  /** The last acknowledgement, in three moves: grant the active request, take the oldest deferred
      request off the queue, execute it. */
  lemma LastAckKeeps(s: Sys, n: nat) returns (granted: Sys)
    requires Inv(s) && IsNode(n) && s.up[n] != [] && s.up[n][0] == INVALIDATE_ACK && s.rec.expectedAcks == 1
    ensures Inv(CoordinatorStep(s, n))
    ensures Inv(granted) && !granted.rec.active && granted.rec.deferred == s.rec.deferred && Owing(granted) == {}
    ensures s.rec.activeNode < WIDTH && granted.dir == s.dir && granted.workers == s.workers
    ensures granted.up == TakeUp(s, n).up
    ensures granted.down == s.down[s.rec.activeNode := s.down[s.rec.activeNode] + [SEND_PAGE]]
    ensures s.rec.deferred == [] ==> CoordinatorStep(s, n) == granted
    ensures s.rec.deferred != [] ==>
              var q := s.rec.deferred[0];
              var popped := WithQueue(granted, s.rec.deferred[1..]);
              && IsNode(q.node) && q == RequestOf(s.page, q.node, s.workers[q.node].want)
              && InvWith(popped, q.node)
              && CoordinatorStep(s, n) == Outgoing(popped, Execute(popped.rec, popped.dir, q, NodeFds()))
  {
    AckOwing(s, n);
    var a := s.rec.activeNode;
    granted := TakeUp(s, n).(rec := Completed(s.rec), down := s.down[a := s.down[a] + [SEND_PAGE]]);
    CompleteKeeps(s, n, granted);
    var next := Resume(Completed(s.rec), s.dir, NodeFds());
    DeliverConcat(s.down, Send(a, Grant(s.page)), next.sent, Code);
    DeliverOne(s.down, a, Grant(s.page), Code);
    assert CoordinatorStep(s, n) == Outgoing(granted, next);
    if s.rec.deferred != [] {
      PopKeeps(granted);
      var q := s.rec.deferred[0];
      ExecuteKeeps(WithQueue(granted, s.rec.deferred[1..]), q.node);
    }
  }

  lemma CoordinatorKeeps(s: Sys, n: nat)
    requires Inv(s) && IsNode(n) && s.up[n] != []
    ensures Inv(CoordinatorStep(s, n))
  {
    if s.up[n][0] == INVALIDATE_ACK {
      AckOwing(s, n);
      if s.rec.expectedAcks > 1 {
        CountAckKeeps(s, n, CoordinatorStep(s, n));
      } else {
        var _ := LastAckKeeps(s, n);
      }
    } else {
      TakeRequestKeeps(s, n);
      var t := TakeUp(s, n);
      if s.rec.active {
        DeferKeeps(t, n);
      } else {
        ExecuteKeeps(t, n);
      }
    }
  }

  lemma StepKeeps(s: Sys, st: Step)
    requires Inv(s) && Enabled(s, st)
    ensures Inv(Next(s, st))
  {
    match st
    case Issue(n, kind) => IssueKeeps(s, n, kind);
    case CoordinatorReceives(n) => CoordinatorKeeps(s, n);
    case NodeReceives(n) =>
      assert NodeOk(s, n, 0);
      if s.down[n][0] == SEND_PAGE {
        GrantKeeps(s, n);
      } else {
        InvalidateKeeps(s, n);
      }
  }

  lemma {:induction false} RunKeeps(s: Sys, steps: seq<Step>)
    requires Inv(s) && Runs(s, steps)
    ensures Inv(After(s, steps))
    decreases |steps|
  {
    if steps != [] {
      StepKeeps(s, steps[0]);
      RunKeeps(Next(s, steps[0]), steps[1..]);
    }
  }

  lemma ReachableInv(s: Sys)
    requires Reachable(s)
    ensures Inv(s)
  {
    var page: nat, steps: seq<Step> :| Runs(Init(page), steps) && After(Init(page), steps) == s;
    InitHolds(page);
    RunKeeps(Init(page), steps);
  }

  lemma {:induction false} RunExtends(s: Sys, steps: seq<Step>, st: Step)
    requires Runs(s, steps) && Enabled(After(s, steps), st)
    ensures Runs(s, steps + [st]) && After(s, steps + [st]) == Next(After(s, steps), st)
    decreases |steps|
  {
    var all := steps + [st];
    if steps == [] {
      assert all[1..] == [];
    } else {
      RunExtends(Next(s, steps[0]), steps[1..], st);
      assert all[1..] == steps[1..] + [st];
    }
  }

  lemma ReachableStep(s: Sys, st: Step)
    requires Reachable(s) && Enabled(s, st)
    ensures Reachable(Next(s, st))
  {
    var page: nat, steps: seq<Step> :| Runs(Init(page), steps) && After(Init(page), steps) == s;
    RunExtends(Init(page), steps, st);
    ReachableInv(s);
    StepKeeps(s, st);
  }

  // ---- Single writer or many readers ----

  /** While a node has a write copy or a write grant in flight, no other node has a copy or a grant in flight. */
  lemma SingleWriterManyReaders(s: Sys, writer: nat, other: nat)
    requires Reachable(s) && IsNode(writer) && IsNode(other) && writer != other
    requires LiveWriter(s, writer)
    ensures !Resident(s.workers[other].status) && !GrantTo(s, other)
  {
    ReachableInv(s);
    assert LiveWriter(s, writer) && !Live(s, other);
  }

  /** The coordinator never executes a READ for the node it records as owner, neither on arrival nor
      from the queue. */
  lemma OwnerNeverReads(s: Sys, n: nat)
    requires Reachable(s) && IsNode(n) && s.up[n] != []
    ensures s.up[n][0] == READ && !s.rec.active ==> s.dir.owner != n
    ensures (s.up[n][0] == INVALIDATE_ACK && s.rec.expectedAcks == 1 && s.rec.deferred != []
             && s.rec.deferred[0].kind == READ) ==> s.dir.owner != s.rec.deferred[0].node
  {
    ReachableInv(s);
    if s.up[n][0] == READ && !s.rec.active {
      TakeRequestKeeps(s, n);
      ExecuteKeeps(TakeUp(s, n), n);
    }
    if s.up[n][0] == INVALIDATE_ACK && s.rec.expectedAcks == 1 && s.rec.deferred != [] {
      var granted := LastAckKeeps(s, n);
      ExecuteKeeps(WithQueue(granted, s.rec.deferred[1..]), s.rec.deferred[0].node);
    }
  }

  // ---- The directory covers every copy ----

  /** A node with a copy or a grant in flight is a holder, or an INVALIDATE is the last message on its
      connection; the recorded owner is the one node that may write, once its own transaction is over. */
  lemma DirectoryCovers(s: Sys, n: nat)
    requires Reachable(s) && IsNode(n)
    ensures Live(s, n) ==> n in Holders(s.dir) || (s.down[n] != [] && s.down[n][|s.down[n]| - 1] == INVALIDATE)
    ensures LiveWriter(s, n) && !InvalidateTo(s, n) ==> s.dir.state == MODIFIED && s.dir.owner == n
    ensures s.dir.state == MODIFIED && s.dir.owner == n && !Active(s, n) ==> LiveWriter(s, n) && !InvalidateTo(s, n)
    ensures WellFormed(s.dir)
  {
    ReachableInv(s);
    assert NodeOk(s, n, 0);
  }

  // ---- Exact acknowledgement accounting ----

  function Occurrences(q: seq<nat>, code: nat): nat {
    if q == [] then 0 else Count(q[0] == code) + Occurrences(q[1..], code)
  }

  /** INVALIDATEs and acknowledgements in flight on the connections of nodes 0..i-1. */
  function InFlight(s: Sys, i: nat): nat
    requires Shape(s) && i <= WIDTH
  {
    if i == 0 then 0 else
    InFlight(s, i - 1) + Occurrences(s.down[i - 1], INVALIDATE) + Occurrences(s.up[i - 1], INVALIDATE_ACK)
  }

  lemma ShortOccurrences(q: seq<nat>, code: nat)
    requires |q| <= 2
    ensures Occurrences(q, code)
         == if q == [] then 0 else if |q| == 1 then Count(q[0] == code) else Count(q[0] == code) + Count(q[1] == code)
  {
    if |q| == 2 {
      assert q[1..] == [q[1]];
    }
  }

  lemma OneEach(s: Sys, n: nat)
    requires Inv(s) && n < WIDTH
    ensures Occurrences(s.down[n], INVALIDATE) + Occurrences(s.up[n], INVALIDATE_ACK) == Count(n in Owing(s))
  {
    if n != 0 {
      assert NodeOk(s, n, 0);
      ShortOccurrences(s.down[n], INVALIDATE);
      ShortOccurrences(s.up[n], INVALIDATE_ACK);
    }
  }

  lemma {:induction false} InFlightIsOwing(s: Sys, i: nat)
    requires Inv(s) && i <= WIDTH
    ensures InFlight(s, i) == |set n | n in Owing(s) && n < i|
    decreases i
  {
    CountBelow(Owing(s), i);
    if i > 0 {
      InFlightIsOwing(s, i - 1);
      OneEach(s, i - 1);
    }
  }

  lemma CountBelow(ns: set<nat>, i: nat)
    ensures i == 0 ==> |set n | n in ns && n < i| == 0
    ensures i > 0 ==> |set n | n in ns && n < i| == |set n | n in ns && n < i - 1| + Count(i - 1 in ns)
  {
    var now := set n | n in ns && n < i;
    if i == 0 {
      assert now == {};
    } else {
      var before := set n | n in ns && n < i - 1;
      assert now == if i - 1 in ns then before + {i - 1} else before;
    }
  }

  /** A transaction is active exactly while acknowledgements are expected, and their number is the number
      of INVALIDATEs and acknowledgements in flight. */
  lemma ExactAckAccounting(s: Sys)
    requires Reachable(s)
    ensures s.rec.active <==> s.rec.expectedAcks > 0
    ensures s.rec.expectedAcks == InFlight(s, WIDTH)
  {
    ReachableInv(s);
    InFlightIsOwing(s, WIDTH);
    assert (set n | n in Owing(s) && n < WIDTH) == Owing(s);
  }

  /** No acknowledgement is ever ignored or counted towards another transaction: one that arrives finds its
      transaction active, and when the coordinator starts a transaction (on a request while inactive, or
      from the queue after the last acknowledgement) nothing of an earlier one is left in flight. */
  lemma AcksBelongToTheActiveTransaction(s: Sys, n: nat)
    requires Reachable(s) && IsNode(n) && s.up[n] != []
    ensures s.up[n][0] == INVALIDATE_ACK ==> s.rec.active && s.rec.expectedAcks > 0
    ensures s.up[n][0] == INVALIDATE_ACK && s.rec.expectedAcks == 1 ==> Owing(s) == {n} && Owing(TakeUp(s, n)) == {}
    ensures !s.rec.active ==> Owing(s) == {}
  {
    ReachableInv(s);
    if s.up[n][0] == INVALIDATE_ACK {
      AckOwing(s, n);
      if s.rec.expectedAcks == 1 {
        assert |Owing(s) - {n}| == 0;
      }
    }
    if !s.rec.active {
      assert |Owing(s)| == 0;
    }
  }

  // ---- Request conservation ----

  /** An outstanding request is in exactly one place: on its way, deferred, active, or answered by a grant
      on its way back; a node without one has no trace at the coordinator. Deferred requests are their
      issuers' own, one per node. */
  lemma RequestConservation(s: Sys, n: nat)
    requires Reachable(s) && IsNode(n)
    ensures Count(RequestFrom(s, n)) + Count(Queued(s, n)) + Count(Active(s, n)) + Count(GrantTo(s, n))
         == Count(s.workers[n].want != 0)
    ensures forall i :: 0 <= i < |s.rec.deferred| && s.rec.deferred[i].node == n ==>
              s.rec.deferred[i] == RequestOf(s.page, n, s.workers[n].want)
    ensures forall i, j :: 0 <= i < j < |s.rec.deferred| ==> s.rec.deferred[i].node != s.rec.deferred[j].node
  {
    ReachableInv(s);
    assert NodeOk(s, n, 0);
  }

  /** A grant is never dropped by the node it reaches, and gives it what it asked for: once, since its
      request is then in no other place. */
  lemma GrantsAreAccepted(s: Sys, n: nat)
    requires Reachable(s) && IsNode(n) && s.down[n] != [] && s.down[n][0] == SEND_PAGE
    ensures s.workers[n].want == READ || s.workers[n].want == WRITE
    ensures NodeStep(s, n).workers[n] == Worker(VALID, s.workers[n].want == WRITE, 0)
    ensures !GrantTo(NodeStep(s, n), n) && !Queued(s, n) && !Active(s, n) && !RequestFrom(s, n)
  {
    ReachableInv(s);
    assert NodeOk(s, n, 0);
    assert NodeStep(s, n).down[n] == [] || NodeStep(s, n).down[n] == [INVALIDATE];
  }

  lemma {:induction false} DistinctNodes(q: seq<Request>)
    requires forall i, j :: 0 <= i < j < |q| ==> q[i].node != q[j].node
    ensures |set i | 0 <= i < |q| :: q[i].node| == |q|
    decreases |q|
  {
    var all := set i | 0 <= i < |q| :: q[i].node;
    if q == [] {
      assert all == {};
    } else {
      var last := |q| - 1;
      var front := q[..last];
      DistinctNodes(front);
      var before := set i | 0 <= i < |front| :: front[i].node;
      assert all == before + {q[last].node} by {
        forall e | e in all
          ensures e in before + {q[last].node}
        {
          var i :| 0 <= i < |q| && q[i].node == e;
          if i < last {
            assert front[i].node == e;
          }
        }
        forall e | e in before
          ensures e in all
        {
          var i :| 0 <= i < |front| && front[i].node == e;
          assert q[i].node == e;
        }
        assert q[last].node in all;
      }
      assert q[last].node !in before;
    }
  }

  /** While a transaction is active, the queue is shorter than the number of nodes other than the active one. */
  lemma TwoMore(nodes: set<nat>, a: nat)
    requires (forall n <- nodes :: n < WIDTH) && a !in nodes && 0 !in nodes && 0 < a < WIDTH
    ensures |nodes| <= WIDTH - 2
  {
    var more := nodes + {a};
    CardinalityBelow(more + {0}, WIDTH);
    assert |more| == |nodes| + 1;
  }

  lemma ActiveQueueBound(s: Sys)
    requires Inv(s) && s.rec.active
    ensures |s.rec.deferred| <= WIDTH - 2
  {
    var q := s.rec.deferred;
    DistinctNodes(q);
    var nodes := set i | 0 <= i < |q| :: q[i].node;
    var a := s.rec.activeNode;
    assert NodeOk(s, a, 0);
    assert !Queued(s, a);
    assert a !in nodes;
    assert 0 !in nodes;
    TwoMore(nodes, a);
  }

  lemma StepQueueBound(s: Sys, st: Step)
    requires Inv(s) && Enabled(s, st) && |s.rec.deferred| <= WIDTH - 2
    ensures |Next(s, st).rec.deferred| <= WIDTH - 2
  {
    StepKeeps(s, st);
    var t := Next(s, st);
    if t.rec.active {
      ActiveQueueBound(t);
    } else if st.CoordinatorReceives? && s.up[st.node][0] == INVALIDATE_ACK {
      AckOwing(s, st.node);
      if s.rec.expectedAcks == 1 {
        var _ := LastAckKeeps(s, st.node);
      }
    }
  }

  lemma {:induction false} RunQueueBound(s: Sys, steps: seq<Step>)
    requires Inv(s) && Runs(s, steps) && |s.rec.deferred| <= WIDTH - 2
    ensures |After(s, steps).rec.deferred| <= WIDTH - 2
    decreases |steps|
  {
    if steps != [] {
      StepQueueBound(s, steps[0]);
      StepKeeps(s, steps[0]);
      RunQueueBound(Next(s, steps[0]), steps[1..]);
    }
  }

  /** The deferred queue never reaches the number of nodes (63). */
  lemma DeferredBelowNodeCount(s: Sys)
    requires Reachable(s)
    ensures |s.rec.deferred| < 63
  {
    var page: nat, steps: seq<Step> :| Runs(Init(page), steps) && After(Init(page), steps) == s;
    InitHolds(page);
    RunQueueBound(Init(page), steps);
  }
}
