/** The fault handler: from page faults to queued requests (fault_handler.c), and what that leaves the faulting
    pages waiting for. */
module FaultRuns {
  import opened PageStatus
  import opened FaultQueue

  /** The handler's view of a node: page statuses, queued requests, and requests the network thread has popped
      and not settled yet. */
  datatype Node = Node(status: seq<Status>, queue: seq<PageRequest>, inService: seq<PageRequest>)

  /** The network thread settles a request in one of two ways: it installs the page, as when a SEND_PAGE or the
      last acknowledgement arrives, or it finds a read of a page that is present and changes nothing. Pages
      also come and go without a request being settled. */
  datatype Event =
    | Fault(page: nat, isWrite: bool)
    | Take                // the network thread pops a request
    | Answer(index: nat)  // it installs the page of a request in service, which ends
    | Pass(index: nat)    // a read in service ends with nothing done
    | Install(page: nat)  // an unsolicited page arrives
    | Drop(page: nat)     // an INVALIDATE arrives

  function OnFault(node: Node, page: nat, isWrite: bool): Node
    requires page < |node.status|
  {
    var st := node.status[page];
    if Spurious(st, isWrite) then node
    else if |node.queue| == CAPACITY then node.(status := node.status[page := EMPTY])
    else node.(status := node.status[page := Faulted(st, isWrite)], queue := node.queue + [PageRequest(page, isWrite)])
  }

  function Removed<T>(s: seq<T>, i: nat): seq<T>
    requires i < |s|
  {
    s[..i] + s[i + 1..]
  }

  predicate Enabled(node: Node, e: Event) {
    match e
    case Fault(page, _) => page < |node.status|
    case Take => node.queue != []
    case Answer(i) => i < |node.inService| && node.inService[i].pageIndex < |node.status|
    case Pass(i) =>
      && i < |node.inService| && node.inService[i].pageIndex < |node.status|
      && !node.inService[i].isWrite && Resident(node.status[node.inService[i].pageIndex])
    case Install(page) => page < |node.status|
    case Drop(page) => page < |node.status|
  }

  function Next(node: Node, e: Event): Node
    requires Enabled(node, e)
  {
    match e
    case Fault(page, isWrite) => OnFault(node, page, isWrite)
    case Take => node.(queue := node.queue[1..], inService := node.inService + [node.queue[0]])
    case Answer(i) =>
      node.(status := node.status[node.inService[i].pageIndex := VALID], inService := Removed(node.inService, i))
    case Pass(i) => node.(inService := Removed(node.inService, i))
    case Install(page) => node.(status := node.status[page := VALID])
    case Drop(page) => node.(status := node.status[page := EMPTY])
  }

  predicate Legal(node: Node, es: seq<Event>)
    decreases |es|
  {
    es == [] || (Enabled(node, es[0]) && Legal(Next(node, es[0]), es[1..]))
  }

  function Run(node: Node, es: seq<Event>): Node
    requires Legal(node, es)
    decreases |es|
  {
    if es == [] then node else Run(Next(node, es[0]), es[1..])
  }

  function Open(node: Node): seq<PageRequest> {
    node.inService + node.queue
  }

  predicate Waiting(st: Status) {
    st == PENDING || st == WRITE_PENDING
  }

  /** Some open request is for this page, and for writing if the page waits to be written. */
  ghost predicate Asked(rs: seq<PageRequest>, page: nat, st: Status) {
    exists r :: r in rs && r.pageIndex == page && (st == WRITE_PENDING ==> r.isWrite)
  }

  ghost predicate Inv(node: Node) {
    && |node.queue| <= CAPACITY
    && forall p: nat :: p < |node.status| && Waiting(node.status[p]) ==> Asked(Open(node), p, node.status[p])
  }

  lemma RemovedKeeps<T>(s: seq<T>, i: nat, x: T)
    requires i < |s| && x in s && x != s[i]
    ensures x in Removed(s, i)
  {
    var k :| 0 <= k < |s| && s[k] == x;
    assert Removed(s, i)[if k < i then k else k - 1] == x;
  }

  lemma StepKeeps(node: Node, e: Event)
    requires Inv(node) && Enabled(node, e)
    ensures Inv(Next(node, e))
  {
    var after := Next(node, e);
    forall p: nat | p < |after.status| && Waiting(after.status[p])
      ensures Asked(Open(after), p, after.status[p])
    {
      if e.Fault? && e.page == p && after.queue != node.queue {
        assert PageRequest(p, e.isWrite) in Open(after);
      } else {
        assert Asked(Open(node), p, node.status[p]);
        var r :| r in Open(node) && r.pageIndex == p && (node.status[p] == WRITE_PENDING ==> r.isWrite);
        if (e.Answer? || e.Pass?) && r in node.inService {
          RemovedKeeps(node.inService, e.index, r);
        } else if e.Take? {
          assert node.queue == [node.queue[0]] + after.queue;
        }
        assert r in Open(after);
      }
    }
  }

  lemma {:induction false} RunKeeps(node: Node, es: seq<Event>)
    requires Inv(node) && Legal(node, es)
    ensures Inv(Run(node, es)) && |Run(node, es).status| == |node.status|
    decreases |es|
  {
    if es != [] {
      StepKeeps(node, es[0]);
      RunKeeps(Next(node, es[0]), es[1..]);
    }
  }

  /** No page waits in vain: after any run from a node without requests, every page that waits has a request
      for it, queued or with the network thread; and a page waiting to be written has a write request. */
  lemma WaitingPagesAreAsked(node: Node, es: seq<Event>, p: nat)
    requires node.queue == [] && (forall st <- node.status :: !Waiting(st)) && Legal(node, es)
    requires p < |node.status| && p < |Run(node, es).status| && Waiting(Run(node, es).status[p])
    ensures Asked(Open(Run(node, es)), p, Run(node, es).status[p])
  {
    RunKeeps(node, es);
  }

  // ---- The full queue ----

  /** A fault that needs a request is dropped exactly when the queue is full; the page then waits for nothing.
      A copy the page had is kept exactly when the fault is the first on a VALID page and is not dropped. */
  lemma FaultDroppedIffFull(node: Node, page: nat, isWrite: bool)
    requires Inv(node) && page < |node.status| && !Spurious(node.status[page], isWrite)
    ensures var after := OnFault(node, page, isWrite);
      && (|node.queue| == CAPACITY <==> !Waiting(after.status[page]))
      && (|node.queue| == CAPACITY <==> Open(after) == Open(node))
      && (Resident(after.status[page]) <==> node.status[page] == VALID && |node.queue| < CAPACITY)
  {
    if |node.queue| < CAPACITY {
      var after := OnFault(node, page, isWrite);
      assert |Open(after)| == |Open(node)| + 1;
    }
  }

  predicate FaultOn(e: Event, page: nat) {
    e.Fault? && e.page == page
  }

  /** The network thread installs or drops the page. */
  predicate Touches(node: Node, e: Event, page: nat)
    requires Enabled(node, e)
  {
    match e
    case Answer(i) => node.inService[i].pageIndex == page
    case Install(p) => p == page
    case Drop(p) => p == page
    case _ => false
  }

  /** Only faults change the status of the page. */
  predicate OnlyFaults(node: Node, es: seq<Event>, page: nat)
    requires Legal(node, es)
    decreases |es|
  {
    es == [] || (!Touches(node, es[0], page) && OnlyFaults(Next(node, es[0]), es[1..], page))
  }

  /** The node when event number i happens. */
  function Before(node: Node, es: seq<Event>, i: nat): Node
    requires Legal(node, es) && i <= |es|
    decreases i
  {
    if i == 0 then node else Before(Next(node, es[0]), es[1..], i - 1)
  }

  /** Every write fault on the page finds room in the queue and is the last fault on the page. */
  ghost predicate WritesFindRoom(node: Node, es: seq<Event>, page: nat)
    requires Legal(node, es)
  {
    forall i: nat | i < |es| && es[i] == Fault(page, true) ::
      |Before(node, es, i).queue| != CAPACITY && forall j | i < j < |es| :: !FaultOn(es[j], page)
  }

  /** Once the contents count as absent, faults do not bring them back. */
  lemma {:induction false} StaysAbsent(node: Node, es: seq<Event>, page: nat)
    requires Legal(node, es) && page < |node.status| && OnlyFaults(node, es, page) && !Resident(node.status[page])
    ensures page < |Run(node, es).status| && !Resident(Run(node, es).status[page])
    decreases |es|
  {
    if es != [] {
      StaysAbsent(Next(node, es[0]), es[1..], page);
    }
  }

  lemma {:induction false} SecondFaultLosesCopy(node: Node, es: seq<Event>, page: nat)
    requires Legal(node, es) && page < |node.status| && OnlyFaults(node, es, page) && node.status[page] == WRITE_PENDING
    ensures page < |Run(node, es).status|
    ensures Resident(Run(node, es).status[page]) <==> forall e <- es :: !FaultOn(e, page)
    decreases |es|
  {
    if es != [] {
      var after := Next(node, es[0]);
      if FaultOn(es[0], page) {
        StaysAbsent(after, es[1..], page);
      } else {
        SecondFaultLosesCopy(after, es[1..], page);
        assert es == [es[0]] + es[1..];
      }
    }
  }

  lemma LaterRoom(node: Node, es: seq<Event>, page: nat)
    requires Legal(node, es) && es != [] && es[0] != Fault(page, true)
    ensures WritesFindRoom(node, es, page) <==> WritesFindRoom(Next(node, es[0]), es[1..], page)
  {
    var after, rest := Next(node, es[0]), es[1..];
    if WritesFindRoom(node, es, page) {
      forall i: nat | i < |rest| && rest[i] == Fault(page, true)
        ensures |Before(after, rest, i).queue| != CAPACITY && forall j | i < j < |rest| :: !FaultOn(rest[j], page)
      {
        assert es[i + 1] == Fault(page, true) && Before(node, es, i + 1) == Before(after, rest, i);
        forall j | i < j < |rest|
          ensures !FaultOn(rest[j], page)
        {
          assert rest[j] == es[j + 1];
        }
      }
    }
    if WritesFindRoom(after, rest, page) {
      forall i: nat | i < |es| && es[i] == Fault(page, true)
        ensures |Before(node, es, i).queue| != CAPACITY && forall j | i < j < |es| :: !FaultOn(es[j], page)
      {
        assert rest[i - 1] == Fault(page, true) && Before(node, es, i) == Before(after, rest, i - 1);
        forall j | i < j < |es|
          ensures !FaultOn(es[j], page)
        {
          assert es[j] == rest[j - 1];
        }
      }
    }
  }

  /** A present page in any run in which only faults touch it: its contents still count as present at the end
      exactly when every write fault on it found room in the queue and no further fault followed. Otherwise
      the copy has been forgotten although nobody asked for it. */
  lemma {:induction false} CopyKeptIffWritesFindRoom(node: Node, es: seq<Event>, page: nat)
    requires Legal(node, es) && page < |node.status| && OnlyFaults(node, es, page) && node.status[page] == VALID
    ensures page < |Run(node, es).status|
    ensures Resident(Run(node, es).status[page]) <==> WritesFindRoom(node, es, page)
    decreases |es|
  {
    if es != [] {
      var after, rest := Next(node, es[0]), es[1..];
      if es[0] != Fault(page, true) {
        LaterRoom(node, es, page);
        CopyKeptIffWritesFindRoom(after, rest, page);
      } else {
        assert Before(node, es, 0) == node;
        if |node.queue| == CAPACITY {
          StaysAbsent(after, rest, page);
        } else {
          SecondFaultLosesCopy(after, rest, page);
          assert (forall e <- rest :: !FaultOn(e, page)) <==> forall j | 0 < j < |es| :: !FaultOn(es[j], page) by {
            assert forall j | 0 < j < |es| :: es[j] == rest[j - 1];
          }
        }
      }
    }
  }

  /** The requests for a page, in order. */
  function ForPage(rs: seq<PageRequest>, page: nat): seq<PageRequest> {
    if rs == [] then [] else (if rs[0].pageIndex == page then [rs[0]] else []) + ForPage(rs[1..], page)
  }

  lemma {:induction false} ForPageAppend(rs: seq<PageRequest>, r: PageRequest, page: nat)
    ensures ForPage(rs + [r], page) == ForPage(rs, page) + if r.pageIndex == page then [r] else []
    decreases |rs|
  {
    var all := rs + [r];
    if rs == [] {
      assert all[1..] == [];
    } else {
      var first := if rs[0].pageIndex == page then [rs[0]] else [];
      ForPageAppend(rs[1..], r, page);
      assert all[0] == rs[0] && all[1..] == rs[1..] + [r];
      assert ForPage(all, page) == first + ForPage(rs[1..] + [r], page);
    }
  }

  /** No request for the page is popped, and only faults change its status. */
  predicate Unserved(node: Node, es: seq<Event>, page: nat)
    requires Legal(node, es)
    decreases |es|
  {
    es == [] ||
    (!Touches(node, es[0], page) && !(es[0].Take? && node.queue[0].pageIndex == page)
     && Unserved(Next(node, es[0]), es[1..], page))
  }

  /** A present page has no request queued, one that waits to be written has its write request, and one that
      waits as absent has some request. */
  predicate Matches(node: Node, page: nat) {
    page < |node.status|
    && (node.status[page] == VALID ==> ForPage(node.queue, page) == [])
    && (node.status[page] == WRITE_PENDING ==> ForPage(node.queue, page) == [PageRequest(page, true)])
    && (node.status[page] == PENDING ==> ForPage(node.queue, page) != [])
  }

  lemma StepMatches(node: Node, e: Event, page: nat)
    requires Matches(node, page) && Enabled(node, e) && !Touches(node, e, page)
    requires !(e.Take? && node.queue[0].pageIndex == page)
    ensures Matches(Next(node, e), page)
  {
    if e.Fault? {
      ForPageAppend(node.queue, PageRequest(e.page, e.isWrite), page);
    }
  }

  /** Under any run of faults before its first request is popped, a page that still counts as present has no
      request queued, or the one write it waits for. */
  lemma {:induction false} FaultsBeforePop(node: Node, es: seq<Event>, page: nat)
    requires Matches(node, page) && Legal(node, es) && Unserved(node, es, page)
    ensures OnlyFaults(node, es, page) && Matches(Run(node, es), page)
    decreases |es|
  {
    if es != [] {
      StepMatches(node, es[0], page);
      FaultsBeforePop(Next(node, es[0]), es[1..], page);
    }
  }

  function Repeated(e: Event, n: nat): seq<Event> {
    if n == 0 then [] else [e] + Repeated(e, n - 1)
  }

  /** n faults on an absent page, followed by more. */
  lemma {:induction false} FaultsFillQueue(node: Node, page: nat, n: nat, more: seq<Event>) returns (full: Node)
    requires page < |node.status| && (node.status[page] == EMPTY || node.status[page] == PENDING)
    requires |node.queue| + n <= CAPACITY
    ensures |full.queue| == |node.queue| + n && |full.status| == |node.status|
    ensures forall p :: 0 <= p < |full.status| && p != page ==> full.status[p] == node.status[p]
    ensures Legal(node, Repeated(Fault(page, false), n) + more) <==> Legal(full, more)
    ensures Legal(full, more) ==> Run(node, Repeated(Fault(page, false), n) + more) == Run(full, more)
    decreases n
  {
    var es := Repeated(Fault(page, false), n) + more;
    if n == 0 {
      assert es == more;
      full := node;
    } else {
      assert es[0] == Fault(page, false) && es[1..] == Repeated(Fault(page, false), n - 1) + more;
      full := FaultsFillQueue(Next(node, es[0]), page, n - 1, more);
    }
  }

  lemma WriteAfterFilling(node: Node, n: nat)
    requires node.status == [EMPTY, VALID] && node.queue == [] && n == CAPACITY
    ensures var es := Repeated(Fault(0, false), n) + [Fault(1, true)];
      Legal(node, es) && |Run(node, es).status| == 2 && Run(node, es).status[1] == EMPTY
  {
    var write := [Fault(1, true)];
    var full := FaultsFillQueue(node, 0, n, write);
    assert Run(full, write) == Run(Next(full, Fault(1, true)), []);
  }

  /** It happens: page 1 is present, 128 threads fault on page 0, and a write to page 1 forgets its copy. */
  lemma FullQueueForgetsCopy(start: Node, n: nat)
    requires start == Node([EMPTY, EMPTY], [], []) && n == CAPACITY
    ensures var es := [Install(1)] + (Repeated(Fault(0, false), n) + [Fault(1, true)]);
      && Legal(start, es) && Next(start, es[0]).status[1] == VALID
      && |Run(start, es).status| == 2 && Run(start, es).status[1] == EMPTY
  {
    var rest := Repeated(Fault(0, false), n) + [Fault(1, true)];
    var es := [Install(1)] + rest;
    WriteAfterFilling(Next(start, Install(1)), n);
    assert es[0] == Install(1) && es[1..] == rest;
  }

  /** It happens with an empty queue too: two threads write to a present page, and when the first request is popped
      the page counts as absent. */
  lemma SecondFaultForgetsCopy(node: Node, page: nat)
    requires page < |node.status| && node.status[page] == VALID && node.queue == []
    ensures var es, r := [Fault(page, true), Fault(page, true)], PageRequest(page, true);
      && Legal(node, es) && Unserved(node, es, page) && !WritesFindRoom(node, es, page)
      && Run(node, es) == node.(status := node.status[page := PENDING], queue := [r, r])
      && ForPage([r, r], page) == [r, r]
  {
    var es, r := [Fault(page, true), Fault(page, true)], PageRequest(page, true);
    var a := Next(node, es[0]);
    var b := Next(a, es[1]);
    assert es[1..] == [es[1]] && es[1..][1..] == [];
    assert Run(a, es[1..]) == Run(b, []) == b;
    assert b.status == node.status[page := PENDING] && b.queue == [r, r];
    assert Unserved(a, es[1..], page);
    assert es[0] == Fault(page, true) && FaultOn(es[1], page);
    assert [r, r][1..] == [r] && [r][1..] == [];
    assert ForPage([r], page) == [r] + ForPage([], page) == [r];
    assert ForPage([r, r], page) == [r] + ForPage([r], page);
  }

  // ---- Order ----

  /** The request that e puts into the queue. */
  function In(node: Node, e: Event): seq<PageRequest>
    requires Enabled(node, e)
  {
    if e.Fault? && !Spurious(node.status[e.page], e.isWrite) && |node.queue| != CAPACITY
    then [PageRequest(e.page, e.isWrite)] else []
  }

  /** The request that e takes out of it. */
  function Out(node: Node, e: Event): seq<PageRequest>
    requires Enabled(node, e)
  {
    if e.Take? then [node.queue[0]] else []
  }

  function Queued(node: Node, es: seq<Event>): seq<PageRequest>
    requires Legal(node, es)
    decreases |es|
  {
    if es == [] then [] else In(node, es[0]) + Queued(Next(node, es[0]), es[1..])
  }

  function Taken(node: Node, es: seq<Event>): seq<PageRequest>
    requires Legal(node, es)
    decreases |es|
  {
    if es == [] then [] else Out(node, es[0]) + Taken(Next(node, es[0]), es[1..])
  }

  /** The faults of a run that were queued are popped in the order in which they happened, each once. */
  lemma {:induction false} FaultsServedInOrder(node: Node, es: seq<Event>)
    requires Legal(node, es)
    ensures node.queue + Queued(node, es) == Taken(node, es) + Run(node, es).queue
    decreases |es|
  {
    if es != [] {
      var e, after := es[0], Next(node, es[0]);
      FaultsServedInOrder(after, es[1..]);
      StepBalances(node, e);
      Chain(node.queue, In(node, e), Out(node, e), after.queue,
            Queued(after, es[1..]), Taken(after, es[1..]), Run(after, es[1..]).queue);
    }
  }

  lemma StepBalances(node: Node, e: Event)
    requires Enabled(node, e)
    ensures node.queue + In(node, e) == Out(node, e) + Next(node, e).queue
  {
  }

  lemma Chain<T>(a: seq<T>, i: seq<T>, o: seq<T>, b: seq<T>, more: seq<T>, taken: seq<T>, rest: seq<T>)
    requires a + i == o + b && b + more == taken + rest
    ensures a + (i + more) == (o + taken) + rest
  {
    assert a + (i + more) == (a + i) + more == o + (b + more) == (o + taken) + rest;
  }

  // ---- fault_handler ----

  datatype Message = PageFault(page: int, isWrite: bool) | Other

  /** The page faults up to the first message the inner loop stops at. */
  function Faults(messages: seq<Message>): seq<Event> {
    if messages == [] || messages[0].Other? || messages[0].page < 0 then []
    else [Fault(messages[0].page, messages[0].isWrite)] + Faults(messages[1..])
  }

  predicate Stops(m: Message) {
    m.Other? || m.page < 0
  }

  /** The faults are those of the messages before the first that stops the loop, in order, each with its page and
      its kind of access. */
  lemma {:induction false} FaultsOfMessages(messages: seq<Message>)
    ensures |Faults(messages)| <= |messages|
    ensures forall k :: 0 <= k < |Faults(messages)| ==>
              && messages[k].PageFault? && messages[k].page >= 0
              && Faults(messages)[k] == Fault(messages[k].page, messages[k].isWrite)
    ensures |Faults(messages)| < |messages| ==> Stops(messages[|Faults(messages)|])
    decreases |messages|
  {
    if messages != [] && !Stops(messages[0]) {
      FaultsOfMessages(messages[1..]);
      forall k | 0 <= k < |Faults(messages)|
        ensures messages[k].PageFault? && messages[k].page >= 0 && Faults(messages)[k] == Fault(messages[k].page, messages[k].isWrite)
      {
        if k > 0 {
          assert Faults(messages)[k] == Faults(messages[1..])[k - 1] && messages[k] == messages[1..][k - 1];
        }
      }
    }
  }

  class FaultHandler {
    const pageTable: array<Status>
    const queue: RequestQueue

    ghost predicate Valid()
      reads this, queue, queue.data
    {
      queue.Valid()
    }

    ghost function View(): (node: Node)
      requires Valid()
      reads this, pageTable, queue, queue.data
    {
      Node(pageTable[..], queue.Contents(), [])
    }

    constructor (pageTable: array<Status>, queue: RequestQueue)
      requires queue.Valid()
      ensures Valid() && this.pageTable == pageTable && this.queue == queue
    {
      this.pageTable := pageTable;
      this.queue := queue;
    }

    /** Lines 47-67. */
    method OnPageFault(idx: nat, isWrite: bool)
      requires Valid() && idx < pageTable.Length
      modifies pageTable, queue, queue.data
      ensures Valid()
      ensures View() == OnFault(old(View()), idx, isWrite)
    {
      if pageTable[idx] == VALID && !isWrite {
        return;
      }
      if pageTable[idx] == VALID && isWrite {
        pageTable[idx] := WRITE_PENDING;
      } else {
        pageTable[idx] := PENDING;
      }
      var result := queue.Push(PageRequest(idx, isWrite));
      if result < 0 {
        pageTable[idx] := EMPTY;
      }
    }

    /** The inner loop, one message per event. get_page_index yields -1 or a page of the table. */
    method HandleFaults(messages: seq<Message>)
      requires Valid() && forall m <- messages :: m.PageFault? ==> m.page < pageTable.Length
      modifies pageTable, queue, queue.data
      ensures Valid() && Legal(old(View()), Faults(messages))
      ensures View() == Run(old(View()), Faults(messages))
    {
      ghost var start := View();
      var k := 0;
      assert messages[0..] == messages;
      LegalFaults(start, messages);
      while k < |messages|
        invariant 0 <= k <= |messages| && Valid()
        invariant Legal(View(), Faults(messages[k..]))
        invariant Run(View(), Faults(messages[k..])) == Run(start, Faults(messages))
      {
        var m := messages[k];
        assert messages[k..][1..] == messages[k + 1..];
        if m.Other? || m.page < 0 {
          return;
        }
        ghost var node, es := View(), Faults(messages[k..]);
        OnPageFault(m.page, m.isWrite);
        assert es[0] == Fault(m.page, m.isWrite) && es[1..] == Faults(messages[k + 1..]);
        assert Run(node, es) == Run(View(), es[1..]);
        k := k + 1;
      }
    }
  }

  lemma {:induction false} LegalFaults(node: Node, messages: seq<Message>)
    requires forall m <- messages :: m.PageFault? ==> m.page < |node.status|
    ensures Legal(node, Faults(messages))
    decreases |messages|
  {
    var es := Faults(messages);
    if es != [] {
      assert es[1..] == Faults(messages[1..]);
      LegalFaults(Next(node, es[0]), messages[1..]);
    }
  }
}
