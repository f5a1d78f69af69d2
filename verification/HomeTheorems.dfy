/** The latest value survives every run of serialized transactions whose faults are safe, and safety of the
    faults is exactly what is needed. */
module HomeTheorems {
  import opened Wire
  import opened Bitmap
  import opened Directory
  import opened PageStatus
  import opened HomeSpec
  import opened HomeRuns
  import opened HomeProofs

  predicate SafeStep(s: Sys, st: Step) {
    && (st.Fault? ==> Safe(s, st.node, st.isWrite))
    && (st.Leftover? && st.isWrite && Shape(s) ==> SafeLeftover(s))
  }

  // ---- Every step ----

  /** A request is answered with the page, or the owner is asked for it, or the other holders are told. */
  lemma RequestReceived(s: Sys, n: nat, isWrite: bool)
    requires Inv(s) && s.txn == Serving(n, isWrite) && Requesting(s, n, isWrite)
    ensures var t := HomeStep(s, n);
      && Inv(t) && t.txn == s.txn
      && (Granting(t, n, isWrite) || Fetching(t, n, isWrite) || (isWrite && Collecting(t, n)))
  {
    assert CopyOk(s, s.home.me);
    if s.home.status == VALID {
      ServeFromHome(s, n, isWrite);
    } else if s.home.dir.owner == 0 {
      ServeZeros(s, n, isWrite);
    } else {
      FetchStarts(s, n, isWrite);
    }
  }

  /** The fetched page waits for acknowledgements, or goes to the reader. */
  lemma PageReceived(s: Sys, n: nat, isWrite: bool)
    requires Inv(s) && s.txn == Serving(n, isWrite) && Fetching(s, n, isWrite) && s.toHome[s.home.dir.owner] != []
    ensures var t := HomeStep(s, s.home.dir.owner);
      && Inv(t)
      && (isWrite ==> t.txn == s.txn && Collecting(t, n))
      && (!isWrite ==> if n == s.home.me then t.txn == Idle else t.txn == s.txn && Granting(t, n, false))
  {
    if isWrite {
      FetchedForWrite(s, n);
    } else {
      FetchedForRead(s, n);
    }
  }

  /** An acknowledgement is counted, or the page goes to the writer. */
  lemma AckReceived(s: Sys, n: nat, m: nat)
    requires Inv(s) && s.txn == Serving(n, true) && Collecting(s, n) && Enabled(s, HomeReceives(m))
    ensures var t := HomeStep(s, m);
      && Inv(t)
      && (s.home.pending.expectedAcks > 1 ==> t.txn == s.txn && Collecting(t, n))
      && (s.home.pending.expectedAcks == 1 ==>
           if n == s.home.me then t.txn == Idle && Owns(t, n) else t.txn == s.txn && Granting(t, n, true))
  {
    if s.home.pending.expectedAcks > 1 {
      CountAckKeeps(s, n, m);
    } else {
      LastAckKeeps(s, n, m);
    }
  }

  lemma HomeReceivesKeeps(s: Sys, m: nat)
    requires Inv(s) && Enabled(s, HomeReceives(m))
    ensures Inv(HomeStep(s, m))
    ensures s.txn.Serving? && s.txn.isWrite && HomeStep(s, m).txn == Idle ==> Owns(HomeStep(s, m), s.txn.node)
  {
    match s.txn
    case Idle =>
    case Serving(n, isWrite) =>
      if Requesting(s, n, isWrite) {
        RequestReceived(s, n, isWrite);
      } else if Fetching(s, n, isWrite) {
        PageReceived(s, n, isWrite);
      } else if isWrite && Collecting(s, n) {
        AckReceived(s, n, m);
      }
  }

  lemma NodeReceivesKeeps(s: Sys, m: nat)
    requires Inv(s) && Enabled(s, NodeReceives(m))
    ensures Inv(NodeStep(s, m))
    ensures s.txn.Serving? && s.txn.isWrite && NodeStep(s, m).txn == Idle ==> Owns(NodeStep(s, m), s.txn.node)
  {
    match s.txn
    case Idle =>
    case Serving(n, isWrite) =>
      if Fetching(s, n, isWrite) {
        OwnerServes(s, n, isWrite);
      } else if isWrite && Collecting(s, n) {
        DropKeeps(s, n, m);
      } else if Granting(s, n, isWrite) {
        GrantArrives(s, n, isWrite);
      }
  }

  /** A step keeps the invariant, which includes that the fault being served is safe, exactly when it is not
      an unsafe fault. */
  lemma StepKeepsIffSafe(s: Sys, st: Step)
    requires Inv(s) && Enabled(s, st)
    ensures Inv(Next(s, st)) <==> SafeStep(s, st)
  {
    match st
    case Fault(n, isWrite) =>
      if n == s.home.me {
        HomeFaultKeeps(s, isWrite);
      } else {
        RemoteFaultKeeps(s, n, isWrite);
      }
    case Leftover(n, isWrite) =>
      if isWrite {
        LeftoverWriteKeeps(s);
      } else {
        LeftoverReadKeeps(s);
      }
    case HomeReceives(m) => HomeReceivesKeeps(s, m);
    case NodeReceives(m) => NodeReceivesKeeps(s, m);
    case Store(n, v) => StoreKeeps(s, n, v);
  }

  // ---- The same without assuming that the fault being served is safe ----

  /** Every copy is known and the latest value, the transaction is in one of its phases, and whoever asks can
      be served the latest value. */
  ghost predicate Sound(s: Sys) {
    Coherent(s) && Backed(s)
  }

  /** The home node writes a page it has no copy of while others share it, or the page a worker owns arrives
      for another worker's read. */
  predicate Loses(s: Sys, st: Step)
    requires Enabled(s, st)
  {
    var d, p := s.home.dir, s.home.pending;
    || (st == Fault(s.home.me, true) && d.state == SHARED && s.home.me !in d.sharers)
    || (st == Leftover(s.home.me, true) && !SafeLeftover(s))
    || (st.HomeReceives? && s.toHome[st.node][0].kind == SEND_PAGE && p.kind == READ
        && p.requester != 0 && p.requester != s.home.me && s.latest != ZeroPage())
  }

  /** The fault being served is a worker's read of a page with contents that another worker owns, and the page
      has not come back from there yet. */
  ghost predicate Doomed(s: Sys) {
    && Sound(s) && s.txn.Serving? && !ServingSafely(s)
    && (Requesting(s, s.txn.node, false) || Fetching(s, s.txn.node, false))
  }

  lemma FaultKeepsSound(s: Sys, n: nat, isWrite: bool)
    requires Sound(s) && Enabled(s, Fault(n, isWrite))
    ensures var t := Next(s, Fault(n, isWrite));
      && (Sound(t) <==> !Loses(s, Fault(n, isWrite)))
      && (n != s.home.me && !Safe(s, n, isWrite) ==> Doomed(t))
  {
    if n != s.home.me {
      RemoteFaultKeeps(s, n, isWrite);
    } else {
      assert CopyOk(s, n);
      HomeFaultKeeps(s, isWrite);
      if !Safe(s, n, isWrite) {
        HomeZeroFill(s, isWrite);
      }
    }
  }

  lemma LeftoverKeepsSound(s: Sys, isWrite: bool)
    requires Sound(s) && Enabled(s, Leftover(s.home.me, isWrite))
    ensures Sound(Next(s, Leftover(s.home.me, isWrite))) <==> !Loses(s, Leftover(s.home.me, isWrite))
  {
    if isWrite {
      LeftoverWriteKeeps(s);
    } else {
      LeftoverReadKeeps(s);
    }
  }

  lemma OwnerHasTheCopy(s: Sys)
    requires Doomed(s)
    ensures s.home.status != VALID && s.home.dir.owner != 0 && s.home.dir.state == MODIFIED && s.home.dir.owner != s.home.me
  {
    assert s.home.me != s.txn.node;
    if Requesting(s, s.txn.node, false) {
      assert CopyOk(s, s.home.me);
    } else {
      assert s.home.me != s.home.dir.owner;
      assert CopyOk(s, s.home.me);
    }
  }

  /** Once such a read has been issued, its deliveries lead to the step that loses the value. */
  lemma DoomedStep(s: Sys, st: Step)
    requires Doomed(s) && Enabled(s, st)
    ensures Loses(s, st) ==> !Sound(Next(s, st))
    ensures !Loses(s, st) ==> Doomed(Next(s, st))
  {
    var n, o := s.txn.node, s.home.dir.owner;
    OwnerHasTheCopy(s);
    if Requesting(s, n, false) {
      assert forall m: nat :: IsNode(m) && m != n ==> Silent(s, m);
      assert st == HomeReceives(n);
      FetchStarts(s, n, false);
    } else {
      assert forall m: nat :: IsNode(m) && m != o ==> Silent(s, m);
      if st == NodeReceives(o) {
        OwnerServes(s, n, false);
      } else {
        assert st == HomeReceives(o);
        FetchedForRead(s, n);
      }
    }
  }

  lemma DeliveryKeepsSound(s: Sys, st: Step)
    requires Sound(s) && Enabled(s, st) && (st.HomeReceives? || st.NodeReceives?)
    ensures Sound(Next(s, st)) <==> !Loses(s, st)
  {
    if ServingSafely(s) {
      StepKeepsIffSafe(s, st);
      if st.HomeReceives? {
        NotLost(s, st.node);
      }
    } else if Doomed(s) {
      DoomedStep(s, st);
    } else {
      var n := s.txn.node;
      assert Granting(s, n, false);
      assert forall m: nat :: IsNode(m) && m != n ==> Silent(s, m);
      GrantArrives(s, n, false);
    }
  }

  lemma NotLost(s: Sys, m: nat)
    requires Inv(s) && Enabled(s, HomeReceives(m))
    ensures !Loses(s, HomeReceives(m))
  {
    var p := s.home.pending;
    match s.txn
    case Idle =>
    case Serving(n, isWrite) =>
      if isWrite && Collecting(s, n) {
        assert Silent(s, n);
        assert m != n ==> Dropping(s, m);
      } else if Requesting(s, n, isWrite) || Granting(s, n, isWrite) {
        assert m != n ==> Silent(s, m);
      }
  }

  /** A step keeps every copy known and equal to the latest value, and the latest value available to whoever
      asks, exactly when it is not one of two: see Loses. */
  lemma StepKeepsSoundIff(s: Sys, st: Step)
    requires Sound(s) && Enabled(s, st)
    ensures Sound(Next(s, st)) <==> !Loses(s, st)
  {
    match st
    case Fault(n, isWrite) => FaultKeepsSound(s, n, isWrite);
    case Leftover(n, isWrite) => LeftoverKeepsSound(s, isWrite);
    case Store(n, v) => StoreKeeps(s, n, v);
    case HomeReceives(m) => DeliveryKeepsSound(s, st);
    case NodeReceives(m) => DeliveryKeepsSound(s, st);
  }

  // ---- Runs ----

  /** Every state of the run is sound. */
  ghost predicate AlwaysSound(s: Sys, steps: seq<Step>)
    requires Runs(s, steps)
    decreases |steps|
  {
    Sound(s) && (steps == [] || AlwaysSound(Next(s, steps[0]), steps[1..]))
  }

  lemma {:induction false} DoomedRun(s: Sys, steps: seq<Step>)
    requires Doomed(s) && Runs(s, steps) && After(s, steps).txn == Idle
    ensures !AlwaysSound(s, steps)
    decreases |steps|
  {
    if steps != [] {
      DoomedStep(s, steps[0]);
      if !Loses(s, steps[0]) {
        DoomedRun(Next(s, steps[0]), steps[1..]);
      }
    }
  }

  /** Over every run of whole transactions and stores: the copies are coherent and backed in every state passed
      through exactly when every fault of the run is safe. */
  lemma {:induction false} RunSoundIffSafe(s: Sys, steps: seq<Step>)
    requires Inv(s) && Runs(s, steps) && After(s, steps).txn == Idle
    ensures AlwaysSound(s, steps) <==> SafeRun(s, steps)
    decreases |steps|
  {
    if steps != [] {
      var st, t := steps[0], Next(s, steps[0]);
      StepKeepsIffSafe(s, st);
      if SafeStep(s, st) {
        RunSoundIffSafe(t, steps[1..]);
      } else if st.Leftover? {
        LeftoverWriteKeeps(s);
        assert !Sound(t);
      } else {
        FaultKeepsSound(s, st.node, st.isWrite);
        if st.node != s.home.me {
          DoomedRun(t, steps[1..]);
        } else {
          assert !Sound(t);
        }
      }
    }
  }

  /** Every fault of the run is safe when it happens. */
  predicate SafeRun(s: Sys, steps: seq<Step>)
    requires Runs(s, steps)
    decreases |steps|
  {
    steps == [] || (SafeStep(s, steps[0]) && SafeRun(Next(s, steps[0]), steps[1..]))
  }

  lemma {:induction false} RunKeeps(s: Sys, steps: seq<Step>)
    requires Inv(s) && Runs(s, steps) && SafeRun(s, steps)
    ensures Inv(After(s, steps))
    decreases |steps|
  {
    if steps != [] {
      StepKeepsIffSafe(s, steps[0]);
      RunKeeps(Next(s, steps[0]), steps[1..]);
    }
  }

  /** Every copy in the system is the last value stored. */
  ghost predicate CopiesLatest(s: Sys)
    requires Shape(s)
  {
    forall n: nat :: IsNode(n) && Resident(StatusOf(s, n)) ==> PageOf(s, n) == s.latest
  }

  lemma InvCopies(s: Sys)
    requires Inv(s)
    ensures CopiesLatest(s)
  {
    forall n: nat | IsNode(n) && Resident(StatusOf(s, n))
      ensures PageOf(s, n) == s.latest
    {
      match s.txn
      case Idle => assert CopyOk(s, n);
      case Serving(k, isWrite) =>
        if isWrite && Collecting(s, k) {
          assert n != k ==> Dropping(s, n);
        } else {
          assert n != k ==> CopyOk(s, n);
        }
    }
  }

  /** The latest value survives: after any run of serialized transactions, with stores by the owner between
      them, every copy is the last value stored; when no transaction is being served, MODIFIED means that
      the owner is the one node with a copy, and SHARED that the sharers are, with the home node among them
      or the page still all zeros. */
  lemma LatestValueSurvives(index: nat, me: nat, steps: seq<Step>)
    requires IsNode(me) && Runs(Init(index, me), steps) && SafeRun(Init(index, me), steps)
    ensures var s := After(Init(index, me), steps);
      && Shape(s) && CopiesLatest(s)
      && (s.txn == Idle ==>
            && (forall n: nat :: IsNode(n) ==> (StatusOf(s, n) == VALID <==> n in Holders(s.home.dir)))
            && (s.home.dir.state == SHARED ==> s.home.me in s.home.dir.sharers || s.latest == ZeroPage())
            && (s.home.dir.state == INVALID ==> s.latest == ZeroPage()))
  {
    InitHolds(index, me);
    RunKeeps(Init(index, me), steps);
    var s := After(Init(index, me), steps);
    InvCopies(s);
    if s.txn == Idle {
      forall n: nat | IsNode(n)
        ensures StatusOf(s, n) == VALID <==> n in Holders(s.home.dir)
      {
        assert CopyOk(s, n);
      }
    }
  }

  /** The transaction a step works on: the one being served, or the one its fault begins. */
  function TxnOf(s: Sys, st: Step): Txn {
    if st.Fault? || (st.Leftover? && st.isWrite) then Serving(st.node, st.isWrite) else s.txn
  }

  /** The transaction of node n has ended well. */
  predicate Served(t: Sys, n: nat, isWrite: bool, value: Page) {
    && Shape(t) && IsNode(n)
    && StatusOf(t, n) == VALID && PageOf(t, n) == value && t.latest == value
    && n in Holders(t.home.dir) && (isWrite ==> Owns(t, n))
  }

  /** A transaction ends, at once or with a delivery, with the faulting node holding the last value stored, as
      owner if it wrote. */
  lemma GrantedPageIsLatest(s: Sys, st: Step)
    requires Inv(s) && Enabled(s, st) && SafeStep(s, st) && TxnOf(s, st).Serving? && Next(s, st).txn == Idle
    ensures Served(Next(s, st), TxnOf(s, st).node, TxnOf(s, st).isWrite, s.latest)
  {
    if st.Fault? {
      FaultServed(s, st.node, st.isWrite);
    } else if st.Leftover? && st.isWrite {
      LeftoverServed(s);
    } else {
      DeliveryServed(s, st);
    }
  }

  lemma SettledEnds(u: Sys)
    requires Shape(u) && u.txn.Serving? && u.txn.node < WIDTH && Settled(u).txn == Idle
    ensures StatusOf(Settled(u), u.txn.node) == VALID && Settled(u).latest == u.latest
  {
  }

  /** A step that leaves no transaction leaves the faulting node with a copy. */
  lemma EndsValid(s: Sys, st: Step)
    requires Enabled(s, st) && TxnOf(s, st).Serving? && TxnOf(s, st).node < WIDTH
    requires Shape(Next(s, st)) && Next(s, st).txn == Idle
    ensures StatusOf(Next(s, st), TxnOf(s, st).node) == VALID && Next(s, st).latest == s.latest
  {
    match st
    case Fault(n, isWrite) =>
      var r := LocalRequest(s.home.(status := Faulted(StatusOf(s, n), isWrite)), isWrite, s.index, HomeFds(n));
      SettledEnds(AfterReply(s.(txn := Serving(n, isWrite)), r));
    case Leftover(n, isWrite) =>
      if isWrite {
        SettledEnds(AfterReply(s.(txn := Serving(s.home.me, true)), LocalRequest(s.home, true, s.index, HomeFds(s.home.me))));
      }
    case HomeReceives(m) =>
      var t := s.(toHome := s.toHome[m := s.toHome[m][1..]]);
      SettledEnds(AfterReply(t, HomeReply(s, m, s.toHome[m][0])));
    case NodeReceives(m) =>
      var t := s.(toNode := s.toNode[m := s.toNode[m][1..]]);
      SettledEnds(t.(copies := s.copies[m := WorkerAccepts(s.copies[m], s.toNode[m][0].payload)]));
    case Store(m, v) =>
  }

  lemma AtRestServed(t: Sys, n: nat, isWrite: bool)
    requires Inv(t) && t.txn == Idle && IsNode(n) && StatusOf(t, n) == VALID && (isWrite ==> Owns(t, n))
    ensures Served(t, n, isWrite, t.latest)
  {
    assert CopyOk(t, n);
  }

  lemma DeliveryServed(s: Sys, st: Step)
    requires Inv(s) && Enabled(s, st) && !st.Fault? && s.txn.Serving? && Next(s, st).txn == Idle
    ensures Served(Next(s, st), s.txn.node, s.txn.isWrite, s.latest)
  {
    if st.Leftover? {
      LeftoverReadKeeps(s);
    } else if st.HomeReceives? {
      HomeReceivesKeeps(s, st.node);
    } else {
      NodeReceivesKeeps(s, st.node);
    }
    EndsValid(s, st);
    AtRestServed(Next(s, st), s.txn.node, s.txn.isWrite);
  }

  lemma FaultServed(s: Sys, n: nat, isWrite: bool)
    requires Inv(s) && Enabled(s, Fault(n, isWrite)) && Safe(s, n, isWrite) && FaultStep(s, n, isWrite).txn == Idle
    ensures Served(FaultStep(s, n, isWrite), n, isWrite, s.latest)
  {
    StepKeepsIffSafe(s, Fault(n, isWrite));
    EndsValid(s, Fault(n, isWrite));
    FaultMakesOwner(s, n, isWrite);
    AtRestServed(FaultStep(s, n, isWrite), n, isWrite);
  }

  lemma LeftoverServed(s: Sys)
    requires Inv(s) && Enabled(s, Leftover(s.home.me, true)) && SafeLeftover(s) && LeftoverStep(s, true).txn == Idle
    ensures Served(LeftoverStep(s, true), s.home.me, true, s.latest)
  {
    LeftoverWriteKeeps(s);
    EndsValid(s, Leftover(s.home.me, true));
    AtRestServed(LeftoverStep(s, true), s.home.me, true);
  }

  lemma FaultMakesOwner(s: Sys, n: nat, isWrite: bool)
    requires Inv(s) && Enabled(s, Fault(n, isWrite)) && FaultStep(s, n, isWrite).txn == Idle
    ensures isWrite ==> Owns(FaultStep(s, n, isWrite), n)
  {
    assert CopyOk(s, n);
  }

  /** The page goes out once: at most one SEND_PAGE is on its way to a worker, it carries the latest value,
      it is addressed to the faulting node, and if that node already had the contents they are the same. */
  lemma OneGrantInFlight(s: Sys, n: nat)
    requires Inv(s) && IsNode(n) && n != s.home.me
    requires s.txn.Serving? && exists i :: 0 <= i < |s.toNode[n]| && s.toNode[n][i].kind == SEND_PAGE
    ensures s.txn.node == n
    ensures |s.toNode[n]| == 1 && s.toNode[n][0].payload == s.latest
    ensures StatusOf(s, n) == WRITE_PENDING ==> PageOf(s, n) == s.toNode[n][0].payload
    ensures forall m: nat :: IsNode(m) && m != n ==> s.toNode[m] == []
  {
    var k, isWrite := s.txn.node, s.txn.isWrite;
    if Granting(s, k, isWrite) {
      forall m: nat | IsNode(m) && m != n
        ensures s.toNode[m] == []
      {
        assert m != k ==> Silent(s, m);
      }
    }
  }

  /** No transaction gets stuck: while one is being served, a packet is in flight. */
  lemma TransactionProgress(s: Sys) returns (st: Step)
    requires Inv(s) && s.txn.Serving?
    ensures Enabled(s, st) && (st.HomeReceives? || st.NodeReceives?)
  {
    var n, isWrite := s.txn.node, s.txn.isWrite;
    if Requesting(s, n, isWrite) {
      return HomeReceives(n);
    }
    if Fetching(s, n, isWrite) {
      var o := s.home.dir.owner;
      return if s.toNode[o] != [] then NodeReceives(o) else HomeReceives(o);
    }
    if isWrite && Collecting(s, n) {
      var m :| m in Owing(s);
      assert Silent(s, n);
      assert Dropping(s, m);
      assert Silent(s, s.home.me);
      return if s.toNode[m] != [] then NodeReceives(m) else HomeReceives(m);
    }
    return NodeReceives(n);
  }

  // ---- Acknowledgements of a write ----

  /** The page in the slot stays there through every acknowledgement, and goes out on the last one, when no node
      but the writer has a copy. */
  lemma SlotReleasedOnLastAck(s: Sys, m: nat)
    requires Inv(s) && s.txn.Serving? && s.txn.isWrite && Collecting(s, s.txn.node) && Enabled(s, HomeReceives(m))
    requires s.home.pending.payload == s.latest
    ensures s.home.pending.expectedAcks > 1 ==>
              HomeStep(s, m).home.pending.payload == s.latest && HomeReply(s, m, s.toHome[m][0]).sent == []
    ensures s.home.pending.expectedAcks == 1 ==>
              && HomeReply(s, m, s.toHome[m][0]).sent
                 == (if s.txn.node == s.home.me then [] else [Sent(s.txn.node, PagePacket(s.index, s.home.me, s.latest))])
              && (s.txn.node == s.home.me ==> HomeStep(s, m).home.page == s.latest)
              && (forall k: nat :: IsNode(k) && k != s.txn.node ==> !Resident(StatusOf(HomeStep(s, m), k)))
  {
    var n := s.txn.node;
    assert Silent(s, n);
    assert Dropping(s, m);
    if s.home.pending.expectedAcks > 1 {
      CountAckKeeps(s, n, m);
    } else {
      LastAckKeeps(s, n, m);
    }
  }
}
