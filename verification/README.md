# TeleportVM: a verified model of the coherence engine

TeleportVM shares pages between machines with a directory-based MSI protocol. This project models the parts
of it that carry correctness: the per-page coordinator, the live request path with page contents, the
bitmap directory, the clock eviction, packet framing, and the fault queue. It proves what they keep over
every run.

`dafny verify dfyconfig.toml` checks everything.

## Parts

Code that the repository updates in place is written here as classes, arrays and loops, and each method is
proved equal to a specification function. The properties are then proved about the specification, over whole
runs.

| part | files |
|---|---|
| Bitmap directory (`gpd.c`, the accessors of `eviction.c`) | `Bitmap`, `Directory`, `DirectoryCopies` (what evictions do to the copies) |
| Per-page sequencer (`coordinator_sequencer.c`) | `Wire`, `SequencerSpec`, `Sequencer` (linked queue), `SequencerRuns` (arbitrary environment), `Invalidations` and `SequencerPackets` (arbitrary connections) |
| Coordinator, workers and connections as a transition system | `Channels`, `Protocol`, `ProtocolInvariant`, `ProtocolSafety`, `ProtocolLiveness`, `CoordinatorLink`, `AllPages` (shared connections) |
| Live path with page contents (`network_engine.c`) | `PageStatus`, `HomeSpec`, `HomeEngine`, `HomeRuns`, `HomeProofs`, `HomeTheorems`, `HomeTransactions`, `HomeSafety`, `HomeFaults`, `HomeLeftovers`, `HomeReplies` (any state and connections), `HomeLink`, `WorkerLink` |
| Clock eviction (`eviction.c`) | `Eviction`, `EvictionRuns` |
| Packets on a byte stream (`network_engine.c`, `network.h`) | `Framing` |
| Fault queue, its wakeup, and the fault handler (`queue.c`, `fault_handler.c`) | `FaultQueue`, `Wakeup`, `FaultRuns`, `HomeService` (from the fault to the page) |

## What the code does and does not guarantee

- The sequencer is safe over every interleaving, for up to 63 nodes: one writer or many readers, a directory
  that covers every copy, exact acknowledgement counts, no request lost or granted twice. This holds for all pages
  at once, with one connection per node and direction shared by their messages (`AllPages.EveryPageRefines`).
- It is not live for every run. A READ popped right after a READ completes is granted at once, and only one
  request is popped per completion, so the rest of the queue waits with no transaction active.
  `ProtocolLiveness.NeverStrandedIffNoReadAfterRead` is the exact condition over every run, every run that meets
  it serves every request (`ProtocolLiveness.RunsComplete`), and `ProtocolLiveness.StrandingIsReachable` is a run
  with four nodes that does not. Runs of writes always meet it.
- A request whose type is neither READ nor WRITE locks its page for good once it is started, whether on arrival
  or from the queue; with every holder connected, nothing else does (`SequencerRuns.WedgesIffUnknownType`,
  `SequencerRuns.WedgedForever`, with a run in `SequencerRuns.UnknownTypeWedges`). A holder without a connection is
  counted but never told (coordinator_sequencer.c:72-76, 89), which locks the page too. README.md:226-227 of the
  repository promises serialization without these caveats.
- The live path keeps every copy equal to the last value stored, over every run of serialized transactions,
  except for two kinds of fault, the home node writes a page that others share and it has no copy of, and a
  worker reads a page with contents that another worker owns, and for a left-over write (below). README.md:202 of
  the repository claims data consistency at every step; that can be relied on exactly when none happens: `HomeSafety.SafeIffNeverStale`
  is the exact condition for one fault, `HomeTheorems.RunSoundIffSafe` for a whole run, and
  `HomeSafety.HomeWriteOverSharersHappens` and `HomeSafety.WorkerReadsWorkersPageHappens` are runs from the
  start in which each of the two happens.
- When two threads of the home node fault on a page, the second request can be popped after the page has come. A
  left-over read changes nothing. A left-over write of a page that others hold can lose it: the page is VALID, not
  write-pending, when the last acknowledgement arrives, and `deferred_payload`, which still holds the page of an
  earlier transaction, is installed over it (network_engine.c:620-640). `HomeLeftovers.LeftoverSafeIffNeverStale`
  is the exact condition, `HomeLeftovers.LeftoverHappens` a run from the start.
- Every safe fault of the live path is served within 133 deliveries, in whatever order the packets arrive, and
  a worker is sent the page exactly once (`HomeTransactions.EveryFaultIsServed`).
- An eviction leaves the directory covering every copy exactly when no other node holds the page
  (`DirectoryCopies.CoveredIffEvictionsLegal`). Otherwise the next writer shares the page with the nodes that
  were forgotten (`DirectoryCopies.AfterIllegalEviction`; `DirectoryCopies.EvictionBreaksSingleWriter` is a run).
- A present page is taken for absent in two cases: a write fault on it meets a full queue, or another fault on it
  follows the write fault before its request is popped, with room in the queue or not
  (`FaultRuns.CopyKeptIffWritesFindRoom`; runs in `FaultRuns.FullQueueForgetsCopy` and
  `FaultRuns.SecondFaultForgetsCopy`). The home node then maps zeros over the page and tells nobody. Which of these
  faults can end in a stale copy is `HomeFaults.FaultsBeforePopGoStale`, with runs in
  `HomeFaults.SecondFaultHappens` and `HomeSafety.DroppedWriteHappens`.
- Any other safe fault of the home node that gets into the queue is served within 273 steps of the queue, the
  network thread and the packets, however they interleave (`HomeService.EveryQueuedFaultIsServed`).

## Assumptions

- Node ids are 1..63 (main.c:70-73). A packet's sender id is below 64 where the code shifts by it. In `Protocol` and
  `HomeRuns` every holder is connected and the connection of node n is named n; `SequencerRuns`, `SequencerPackets`
  and `HomeReplies` are about any connections.
- Connections are reliable and first-in first-out. A packet sent by the sequencer goes out whole.
- Each node has at most one request outstanding per page; it asks to read only when it has no copy, and to
  write only when it may not store. A MSG_SEND_PAGE does not say what it permits, so a worker takes it as the
  answer to its outstanding request.
- The sequencer's only request types are READ and WRITE, except in the lemmas about other types.
- On the live path, transactions on a page are serialized (it has one pending slot per page), and stores are
  made only by the directory's owner and only between transactions. The messages of one transaction interleave
  freely.
- During one eviction call the set of busy entries is fixed. Entries' page indices need not be distinct.
- A connection does not forever take no byte, or refuse although it was polled as writable.
- Locks make each handler one step; in `Wakeup` the steps are smaller, between the operations on the counter
  and on the ring.

## Model

| member | source | states |
|---|---|---|
| Bitmap.MembersOr | gpd.c:70-76 | or-ing `1ULL << i` into the mask is adding node i to the set it denotes |
| Bitmap.MembersAndNot | gpd.c:101 | and-ing with the complement of `1ULL << i` is removing node i |
| Bitmap.MembersOfBit | gpd.c:95 | `1ULL << i` denotes exactly {i} |
| Bitmap.TopBit | gpd.c:70 | the bits run from the lowest of the word to the highest |
| Bitmap.Contains | coordinator_sequencer.c:73 | the bit test is set membership |
| Directory.GlobalPageDirectory.constructor | gpd.c:8-22 | every entry starts INVALID, without owner or sharers |
| Directory.GlobalPageDirectory.GetOwner | gpd.c:37-39 | the recorded owner |
| Directory.GlobalPageDirectory.TransitionToShared | gpd.c:54-81 | the bitmap entry moves as the set-level directory does, the previous owner is reported, no other page changes, an index out of range is refused |
| Directory.GlobalPageDirectory.TransitionToModified | gpd.c:83-113 | likewise; the invalidate mask denotes exactly the previous holders without the writer |
| Directory.GlobalPageDirectory.GetLocalState | eviction.c:25-38 | the node's own view of the entry, INVALID out of range |
| Directory.GlobalPageDirectory.SetLocalState | eviction.c:40-60 | the node's removal from the entry, in sets; no other page changes |
| Directory.StepWellFormed | gpd.c:54-113 | a transition or eviction keeps a well-formed entry well-formed if and only if it is not an eviction with other holders, and then does what a textbook MSI directory does |
| Directory.RunWellFormed | eviction.c:40-60 | for every mixed run of reads, writes and evictions: well-formed throughout if and only if every eviction finds no other holder, and then the run refines the textbook run |
| DirectoryCopies.StepCovers | eviction.c:40-60 | from a state in which the directory knows exactly the nodes with a copy, an operation leaves every copy known if and only if it is not an eviction with other holders |
| DirectoryCopies.CoveredIffEvictionsLegal | eviction.c:40-60 | over every mixed run of reads, writes and evictions: every copy is known to the directory in every state if and only if every eviction finds no other holder |
| DirectoryCopies.AfterIllegalEviction | eviction.c:46-57 | after any other eviction every remaining copy is unknown; the next write leaves all of them beside the writer's; the next read makes them known again if and only if they were sharers, still in the bitmap, or the reader is the former owner |
| DirectoryCopies.EvictionBreaksSingleWriter | eviction.c:46-57 | a run from the start that ends with node 3 the owner and node 2 still holding a copy |
| Directory.ViewsObeyMsi | eviction.c:25-38 | in a well-formed entry one MODIFIED view makes all others INVALID, and a node sees a copy exactly when it is a holder |
| Directory.SetLocalViews | eviction.c:40-60 | after the update with INVALID nobody sees a copy, the evicting node is recorded nowhere and the record of the others is kept |
| Sequencer.PageSequencer.constructor | coordinator_sequencer.c:34-41 | an idle record with an empty queue |
| Sequencer.PageSequencer.CountTargets | coordinator_sequencer.c:71-76 | the counting loop yields the cardinality of the mask's set |
| Sequencer.PageSequencer.BroadcastInvalidate | coordinator_sequencer.c:87-93 | one packet to every connected target and to nobody else |
| Sequencer.PageSequencer.InvalidateOrGrant | coordinator_sequencer.c:71-107 | the transaction waits for exactly the nodes in the mask, each connected one being told, or is granted and over |
| Sequencer.PageSequencer.Execute | coordinator_sequencer.c:62-134 | record, directory entry and packets are those of the specification; the queue and other pages are untouched |
| Sequencer.PageSequencer.ExecuteWrite | coordinator_sequencer.c:66-107 | the same for a WRITE |
| Sequencer.PageSequencer.ExecuteRead | coordinator_sequencer.c:109-133 | the same for a READ |
| Sequencer.PageSequencer.Enqueue | coordinator_sequencer.c:147-160 | the linked queue gains the request behind its tail; head null iff tail null iff empty, and it refines a sequence |
| Sequencer.PageSequencer.Dequeue | coordinator_sequencer.c:204-209 | the oldest request leaves the linked queue |
| Sequencer.PageSequencer.Resume | coordinator_sequencer.c:204-217 | exactly the oldest deferred request is started, if there is one |
| Sequencer.PageSequencer.OnRequest | coordinator_sequencer.c:146-168 | a request is deferred exactly when a transaction is active, and started otherwise |
| Sequencer.PageSequencer.OnAck | coordinator_sequencer.c:178-217 | an acknowledgement counts down; the last one grants the active node and starts the head of the linked queue |
| Sequencer.CoordinatorSequencer.constructor | coordinator_sequencer.c:26-43 | every page's record is idle and separate |
| Sequencer.CoordinatorSequencer.ProcessNodeRequest | coordinator_sequencer.c:136-170 | one page takes its step, every other page is untouched, an index out of range does nothing |
| Sequencer.CoordinatorSequencer.ProcessInvalidateAck | coordinator_sequencer.c:172-221 | likewise for an acknowledgement |
| SequencerRuns.StepConserves | coordinator_sequencer.c:136-221 | no request or acknowledgement, expected or not, loses or duplicates a request |
| SequencerRuns.RunConserves | coordinator_sequencer.c:136-221 | in every run with any environment: the accepted requests are exactly the granted ones, the one being served and the waiting ones; the grants sent are those of the granted requests, one each, in order, each on its request's connection; waiting requests start in the order they were deferred |
| SequencerRuns.WedgedForever | coordinator_sequencer.c:178-181 | an active record that expects nothing never sends or unlocks again, whatever arrives |
| SequencerRuns.StepWedgesIffUnknownType | coordinator_sequencer.c:62-134 | an event locks the page with nothing expected if and only if the request it starts, on arrival or from the queue, is neither READ nor WRITE |
| SequencerRuns.WedgesIffUnknownType | coordinator_sequencer.c:136-221 | over every run with requests of any types, the page ends up so if and only if some request that the run started is neither READ nor WRITE |
| SequencerRuns.UnknownTypeWedges | coordinator_sequencer.c:62-64 | it happens: one request of type 7 on an idle page |
| Invalidations.BroadcastTellsAll | coordinator_sequencer.c:87-93 | for every connection table, a broadcast tells each connected target once, on its own connection, in order, and nobody else |
| SequencerPackets.ExecuteTells | coordinator_sequencer.c:62-134 | for every connection table: a WRITE tells exactly the other holders and a READ the other owner, each on its own connection; the page is granted at once, on the request's connection, exactly when nobody must drop it |
| SequencerPackets.ExecuteWaits | coordinator_sequencer.c:71-80 | the record waits for its requester, with one acknowledgement per node that must drop the page, connected or not |
| SequencerPackets.ExecutePackets | coordinator_sequencer.c:81-129 | every packet is a grant or an invalidation of that page without contents; an invalidation for a READ names the reader |
| SequencerPackets.StepPackets | coordinator_sequencer.c:136-221 | one event: whom it tells, to whom it grants the page, and that only the request it starts changes the directory |
| SequencerPackets.RunPackets | coordinator_sequencer.c:136-221 | over every run with any requests, acknowledgements and connections: the directory is what the started requests make of it, and the nodes told are those each of them finds, each once, on its own connection, in order |
| CoordinatorLink.ReceiveFrom | coordinator_sequencer.c:136-221 | the class with the linked queue takes exactly the coordinator's step of the transition system, in memory and in packets |
| ProtocolSafety.StepKeeps | coordinator_sequencer.c:62-221 | every step of the system keeps the invariant |
| ProtocolSafety.SingleWriterManyReaders | gpd.c:54-113 | in every reachable state, a node with a write copy or a write grant in flight excludes every other copy and grant |
| ProtocolSafety.OwnerNeverReads | coordinator_sequencer.c:113 | the shortcut `old_owner == node_id` is never taken, on arrival or from the queue |
| ProtocolSafety.DirectoryCovers | coordinator_sequencer.c:69-93 | every copy or grant belongs to a holder or has an INVALIDATE behind it; a write copy with none means MODIFIED by that owner, and conversely |
| ProtocolSafety.ExactAckAccounting | coordinator_sequencer.c:71-93 | a transaction is active iff acknowledgements are expected, and their number is the INVALIDATEs plus acknowledgements in flight |
| ProtocolSafety.AcksBelongToTheActiveTransaction | coordinator_sequencer.c:178-187 | no acknowledgement is ignored, and none is in flight when a transaction starts |
| ProtocolSafety.RequestConservation | coordinator_sequencer.c:146-168 | an outstanding request is in exactly one of: in flight, deferred, active, granted |
| ProtocolSafety.GrantsAreAccepted | network_engine.c:552-586 | a grant always finds the request it answers, gives exactly that permission, and is the only one |
| ProtocolSafety.DeferredBelowNodeCount | coordinator_sequencer.c:146-160 | fewer than 63 requests are ever deferred |
| ProtocolInvariant.InvalidateKeeps | network_engine.c:589-607 | a worker's INVALIDATE step keeps the invariant |
| ProtocolInvariant.ExecuteKeeps | coordinator_sequencer.c:62-134 | starting a transaction keeps the invariant, and never for the owner's READ |
| ProtocolInvariant.DeferKeeps | coordinator_sequencer.c:146-166 | deferring a request keeps it |
| ProtocolInvariant.PopKeeps | coordinator_sequencer.c:204-209 | taking the oldest deferred request keeps it |
| ProtocolInvariant.CompleteKeeps | coordinator_sequencer.c:187-202 | completing on the last acknowledgement keeps it |
| ProtocolLiveness.StrandsIffReadAfterRead | coordinator_sequencer.c:204-217 | a step leaves waiting requests without an active transaction if and only if it starts a READ right after a READ with more waiting |
| ProtocolLiveness.StrandingIsReachable | coordinator_sequencer.c:204-217 | a run that ends with node 4 ungranted and nothing in flight |
| ProtocolLiveness.NeverStrandedIffNoReadAfterRead | coordinator_sequencer.c:187-217 | over every run of reads and writes, a non-empty queue always has an active transaction if and only if no READ is started right after a READ with more waiting |
| ProtocolLiveness.WriteRunsNeverStrand | coordinator_sequencer.c:66-107 | when nodes only write, that condition holds, and a non-empty queue implies an active transaction |
| ProtocolLiveness.Progress | coordinator_sequencer.c:136-221 | while a request is ungranted and the queue is not stranded, some delivery is enabled |
| ProtocolLiveness.QuiescentUngrantedIffStranded | coordinator_sequencer.c:204-217 | with nothing in flight, a request is ungranted if and only if the queue is stranded |
| ProtocolLiveness.DeliveryLowersRank | coordinator_sequencer.c:136-221 | in every state that keeps the invariant, every delivery, of any kind, lowers a natural-number measure |
| ProtocolLiveness.DeliveriesTerminate | coordinator_sequencer.c:136-221 | without new requests every run ends within that measure |
| ProtocolLiveness.RunsComplete | coordinator_sequencer.c:187-217 | every run of reads and writes that meets the condition and ends with nothing in flight has granted every request |
| ProtocolLiveness.DeliveryRunsComplete | coordinator_sequencer.c:187-217 | without new requests such a run is bounded, and when it cannot be extended every request has been granted |
| ProtocolLiveness.WriteRunsComplete | coordinator_sequencer.c:187-217 | the case of a state in which nodes only write, where the condition always holds |
| ProtocolLiveness.WritesFromTheStart | coordinator_sequencer.c:187-217 | and of every write-only run from the initial state that ends with nothing in flight |
| AllPages.ActionProjects | coordinator_sequencer.c:136-221 | with all pages' messages on shared connections, a step about one page is that page's step of the single-page system and no step of any other page |
| AllPages.EveryPageRefines | coordinator_sequencer.c:136-221 | over every interleaving of all pages, every page is at every time in a state that the single-page system reaches, so its theorems hold for every page |
| AllPages.SingleWriterOnEveryPage | gpd.c:54-113 | single writer or many readers, on every page at once |
| AllPages.DeliveriesEnd | coordinator_sequencer.c:136-221 | without new requests every run of all pages ends within a measure |
| HomeSpec.WorkerHandlesFetch | network_engine.c:655-794 | a worker runs the same request handler on its own directory: it answers a fetch with its page, keeps its copy, and never records an owner |
| HomeReplies.RequestGetsSomewhere | network_engine.c:655-795 | in any state and with any connections, no request waits for nothing: it is answered with the home node's page, or zeros, or the slot waits for it and connected nodes other than the requester have been asked about this page |
| HomeReplies.LocalGetsSomewhere | network_engine.c:314-402 | the same for the home node's own request; one that only reads a present page changes nothing |
| HomeReplies.CollectingTells | network_engine.c:685-708 | as many acknowledgements are awaited as nodes are told: each connected holder other than the writer and the home node, once |
| HomeReplies.HomeGivesUp | network_engine.c:674-683 | when another node becomes the owner, the home node keeps neither the copy it serves nor one the directory knows of |
| HomeReplies.HomeGivesUpFetched | network_engine.c:475-482 | the same when a page fetched for another node's write arrives |
| HomeReplies.SlotContents | network_engine.c:475-497 | `deferred_payload` changes only when a write of another node starts collecting, and is then the page the writer will get |
| HomeReplies.StepKeepsZero | network_engine.c:83-89 | over every step, safe or not, a node without the contents has zeros, never old contents |
| HomeReplies.UnsolicitedPage | network_engine.c:552-586 | a page nobody waits for never replaces contents, and fills a home node without |
| HomeReplies.StrayAcknowledgement | network_engine.c:611 | an acknowledgement nobody waits for does nothing |
| HomeReplies.LastConnectionCounts | network_engine.c:462-467 | after any joins and requests the table holds each node's last connection, and ids above 63 change nothing |
| HomeReplies.AllConnected | network_engine.c:657-660 | from an empty table, once every node has come in, the table is the one the live path's runs use |
| HomeEngine.HomeNode.CountConnected | network_engine.c:685-690 | the loop counts the connected holders other than the requester |
| HomeEngine.HomeNode.BroadcastInvalidate | network_engine.c:699-708 | exactly those are told |
| HomeEngine.HomeNode.TellOthers | network_engine.c:699-708 | the slot is filled and the connected nodes in the mask are told, exactly when there are any |
| HomeEngine.HomeNode.TakeOver | network_engine.c:751-786 | a write either fills the slot and tells the others, or needs nobody; one branch exactly when a connected holder remains |
| HomeEngine.HomeNode.OnLocalRequest | network_engine.c:314-402 | the home node's own fault: page, directory entry, slot and packets as specified, no other page touched |
| HomeEngine.HomeNode.OnJoin | network_engine.c:462-467 | a joining node's connection is recorded for ids below 64 |
| HomeEngine.HomeNode.ServeFromCopy | network_engine.c:666-727 | a request served from the home copy, which a writer takes over |
| HomeEngine.HomeNode.ServeZeros | network_engine.c:744-792 | a request nobody can be asked for |
| HomeEngine.HomeNode.OnRequest | network_engine.c:655-795 | a remote READ or WRITE, with the connection table updated for ids below 64; larger ids wherever the directory does not shift by them |
| HomeEngine.HomeNode.OnSendPage | network_engine.c:468-588 | the fetched page is captured, handed over, or accepted |
| HomeEngine.HomeNode.OnAck | network_engine.c:609-654 | the last acknowledgement releases the captured page |
| HomeEngine.WorkerNode.OnSendPage | network_engine.c:552-586 | the payload is installed unless the node has the contents already |
| HomeEngine.WorkerNode.OnInvalidate | network_engine.c:589-608 | the page is dropped and acknowledged to the coordinator, or without one where the packet came from |
| HomeEngine.WorkerNode.OnLocalRequest | network_engine.c:300-312 | a worker's request, popped from its queue, is sent to the coordinator with its kind, page and sender |
| HomeEngine.WorkerNode.OnFetch | network_engine.c:655-794 | a worker answers the home node's fetch with its page and keeps its copy, and its directory still has no owner |
| WorkerLink.PacketForWorker | network_engine.c:468-655 | in every state that keeps the invariant, what reaches a worker is about the transaction's page: a page, an invalidation or the home node's fetch |
| WorkerLink.ReceiveFrom | network_engine.c:552-794 | a worker's handlers take exactly the worker's step of the transition system, in memory and in packets |
| WorkerLink.TakeFault | network_engine.c:300-312 | a worker's fault takes exactly the fault step of the transition system |
| WorkerLink.SameStatus | network_engine.c:552-607 | the workers of the permission-only system change their status as these do |
| HomeLink.ArrivingPacket | network_engine.c:468-655 | in every state that keeps the invariant, what reaches the home node is a packet of the page's transaction from the node it names |
| HomeLink.ReceiveFrom | network_engine.c:468-795 | the handlers take exactly the home node's step of the transition system |
| HomeLink.TakeFault | network_engine.c:295-406 | so does the handler of a local fault |
| HomeLink.TakeLeftover | network_engine.c:323-362 | so does the handler of a left-over request for a page that is there |
| HomeTheorems.StepKeepsSoundIff | network_engine.c:314-402 | an enabled step keeps the state sound (every copy is known and the latest value, the transaction is in one of its phases, whoever asks can be served the latest value) if and only if it is not one of three: the home node's write over sharers, a left-over write with holders to tell and something else in the slot, and the arrival, for another worker's read, of a page with contents from the worker that owns it |
| HomeTheorems.RunSoundIffSafe | network_engine.c:314-402 | over every run of whole transactions, left-over requests and stores, every state is sound if and only if every fault and left-over request is safe |
| HomeTheorems.StepKeepsIffSafe | network_engine.c:314-402 | the form used for induction: with the extra conjunct that the fault being served is safe, the invariant is kept by exactly the steps that are not an unsafe fault |
| HomeTheorems.LatestValueSurvives | network_engine.c:468-795 | over every run of safe transactions, left-over requests and stores every copy is the last value stored; at rest, copies are exactly the holders', and under SHARED the home node is a holder or the value is all zeros |
| HomeTheorems.GrantedPageIsLatest | network_engine.c:314-402 | a transaction ends, with a delivery or at once in the home node's own fault, with the requester holding the last value stored, as owner if it wrote |
| HomeTheorems.OneGrantInFlight | network_engine.c:475-526 | at most one page is on its way, to the requester, with the latest value; discarding it for a write-pending node loses nothing |
| HomeTheorems.TransactionProgress | network_engine.c:468-795 | a transaction being served always has a packet in flight |
| HomeTheorems.SlotReleasedOnLastAck | network_engine.c:609-651 | the page in `deferred_payload` stays there through every acknowledgement and goes out on the last, when nobody else has a copy |
| HomeTransactions.DeliveryAdvances | network_engine.c:468-795 | every delivery, of any packet in any order, lowers a natural-number measure of the transaction, and sends the page if and only if it stops being due |
| HomeTransactions.DeliveriesServe | network_engine.c:468-795 | so a transaction takes at most that many deliveries, ends with the requester served, and sends the page once if it was still due |
| HomeTransactions.EveryFaultIsServed | network_engine.c:295-795 | every safe fault: at most 133 deliveries follow, and when no more is possible the requester has the last value stored; a worker has been sent the page exactly once, the home node not at all |
| HomeTransactions.SlotKeepsPage | network_engine.c:609-651 | over every run of deliveries, the captured page stays in `deferred_payload` until it leaves for the writer or the transaction is over |
| HomeTransactions.ThreeHopHandoff | network_engine.c:475-651 | from the arrival of the owner's page to the end of the write: the fetched bytes go out exactly once, to the writer, which ends up with them as the only node with a copy |
| HomeProofs.FetchedForWrite | network_engine.c:475-526 | the arrival of the owner's page captures the latest value and starts collecting |
| HomeProofs.FetchedForRead | network_engine.c:527-550 | forwarding the owner's page keeps the copies coherent |
| HomeProofs.HomeFaultKeeps | network_engine.c:314-402 | a fault of the home node keeps the invariant if and only if it is safe |
| HomeSafety.HomeWriteOverSharers | network_engine.c:394-397 | the ignored invalidate mask leaves a sharer with the old value after the next store |
| HomeSafety.HomeWriteOverSharersHappens | network_engine.c:394-397 | a run of safe steps from the start after which that fault is possible |
| HomeSafety.WorkerReadsWorkersPage | network_engine.c:546-549 | after forwarding without keeping a copy, a third node is served zeros |
| HomeSafety.WorkerReadsWorkersPageHappens | network_engine.c:546-549 | a run of safe steps from the start after which that fault is possible |
| HomeSafety.SafeIffNeverStale | network_engine.c:314-402 | a fault is safe if and only if no continuation of safe steps ends with a stale copy |
| HomeLeftovers.LeftoverSafeIffNeverStale | network_engine.c:323-362 | the home node's left-over write: no continuation of safe steps ends with a stale copy if and only if no other node has to be told or the slot happens to hold the latest value |
| HomeLeftovers.LeftoverHappens | network_engine.c:620-640 | a run of safe steps from the start after which an unsafe left-over write is possible |
| HomeFaults.FaultsBeforePopGoStale | network_engine.c:363-400 | the home node shares a page and any faults arrive before the first request for it is popped; once that is served, some continuation of safe steps ends with a stale copy if and only if a write fault on the page met a full queue or was not its last fault, and no request got through, or the last value was not zeros, or the request is a write and another node shares the page |
| HomeFaults.SecondFaultHappens | fault_handler.c:55-66 | it happens with room in the queue: a run from the start and two write faults |
| HomeSafety.DroppedWriteHappens | fault_handler.c:64-66 | a run of safe steps from the start after which that write is possible |
| Eviction.VictimUnique | eviction.c:104-152 | the ring, the hand and the busy entries determine the declarative victim, and there is one if and only if there is a candidate |
| Eviction.PassOver | eviction.c:106-126 | a step over a busy, accessed or absent entry keeps the sweep's invariant |
| Eviction.EvictionRing.MarkAccessed | eviction.c:84-88 | sets that entry's bit and nothing else |
| Eviction.EvictionRing.FindVictim | eviction.c:104-126 | the 2n-bounded loop finds the first free resident entry with a clear bit, or else the first free resident one; clears exactly the bits passed over; leaves the hand behind the victim |
| Eviction.EvictionRing.Evict | eviction.c:128-147 | a MODIFIED page is written back before its contents are dropped and the directory told |
| Eviction.EvictionRing.ExecuteEviction | eviction.c:96-156 | all of it, and -1 if and only if no free resident entry exists |
| EvictionRuns.SweepDetermined | eviction.c:96-156 | a sweep's outcome is unique, and it fails exactly when there is no candidate |
| EvictionRuns.NextVictim | eviction.c:104-126 | the sweep after an eviction looks for its victim from the entry behind the last one |
| EvictionRuns.MarkedOnly | eviction.c:84-88 | a mark sets one bit and changes nothing else |
| EvictionRuns.BitsComeFromMarks | eviction.c:84-126 | over every history an entry is accessed at the end only if it was at the start or has been marked since |
| EvictionRuns.SecondChance | eviction.c:84-126 | over any history, a marked page is not evicted before the hand has passed over it |
| EvictionRuns.SweepRemovesOne | eviction.c:144-151 | a successful sweep removes exactly one resident entry, nothing else adds or removes one |
| EvictionRuns.SweepsExhaust | eviction.c:104-155 | with none busy, r resident pages take exactly r sweeps, whatever is marked in between, and only then does a sweep find nothing |
| Framing.DecodeEncode | network.h:13-20 | reading the packed layout back gives the packet |
| Framing.EncodeDecode | network.h:13-20 | every 4109 bytes are the encoding of the packet read from them |
| Framing.EncodeLayout | network.h:13-20 | every byte of the layout: type, page index and sender with their low bytes first, contents |
| Framing.Connection.SendAll | network_engine.c:60-81 | all of the buffer goes out, or -1 with a proper prefix of it |
| Framing.Connection.SendPacket | network_engine.c:60-81 | the wire carries the encodings of the packets sent, in order; after a failed send, a proper prefix of the last one |
| Framing.UniqueParse | network_engine.c:458-459 | a prefix of a stream splits into whole packets and a shorter rest in only one way |
| Framing.PeerSession.Receive | network_engine.c:458-459 | the bytes received are the packets dispatched followed by the buffered ones |
| Framing.PeerSession.Dispatch | network_engine.c:797-798 | a full buffer is dispatched once and emptied |
| Framing.PeerSession.OnReadable | network_engine.c:436-460 | all waiting bytes are taken, in any chunks, and never with a recv of zero bytes; the connection is closed exactly when recv then reports its end or an error |
| Framing.FramingRoundTrip | network_engine.c:436-460 | what is dispatched is a prefix of what was sent, what is buffered is a proper prefix of the next packet, and all of it is dispatched once all bytes are in |
| Framing.ReceiveStream | network_engine.c:436-801 | the same for the loop itself, over any readable events on a new connection |
| FaultQueue.RequestQueue.Push | queue.c:19-34 | appends and counts, or -1 exactly when 128 requests are queued |
| FaultQueue.RequestQueue.Pop | queue.c:36-47 | takes the oldest request, or -1 exactly when there is none |
| FaultQueue.AppendToRing | queue.c:25-27 | storing at the tail appends to the ring's sequence and disturbs nothing queued |
| FaultQueue.RemoveFromRing | queue.c:42-44 | moving the head removes the first |
| Wakeup.StepKeeps | queue.c:19-47 | every step of the pushers and of the network thread keeps the wakeup invariant |
| Wakeup.NoLostWakeup | network_engine.c:242-245 | over every interleaving: accepted requests come out once and in order up to the at most 128 still queued, and if any is queued the consumer is draining or will be woken |
| Wakeup.InternalRunsTerminate | network_engine.c:297-299 | without further pushes the threads stop within a measure |
| Wakeup.Progress | network_engine.c:295-299 | while a request is queued, one of them has a step to take |
| Wakeup.QuietMeansDelivered | network_engine.c:295-299 | if they can only wait for a push, every accepted request has been delivered |
| Wakeup.PushRequest | queue.c:19-34 | queue_push takes exactly the steps of the transition system |
| Wakeup.OnQueueEvent | network_engine.c:295-299 | so does the handler of the eventfd: it reads the counter, then pops everything there is |
| FaultRuns.FaultHandler.OnPageFault | fault_handler.c:47-67 | one fault's effect on the page status and the queue |
| FaultRuns.FaultHandler.HandleFaults | fault_handler.c:25-69 | the loop handles the faults up to the first message it stops at |
| FaultRuns.FaultsOfMessages | fault_handler.c:25-48 | the faults handled are those of the messages before the first that stops the loop, in order, each with its page and its kind of access |
| FaultRuns.WaitingPagesAreAsked | fault_handler.c:50-65 | over every run of faults, pops, answers, reads passed over, unsolicited pages and invalidations, a page that waits has a request queued or in service, and one waiting to be written a write request |
| FaultRuns.FaultDroppedIffFull | fault_handler.c:50-66 | a fault is dropped if and only if the queue is full; a copy survives a fault if and only if the page was VALID and the queue had room |
| FaultRuns.CopyKeptIffWritesFindRoom | fault_handler.c:50-66 | over every run in which only faults touch a present page, it still counts as present at the end if and only if every write fault on it found room in the queue and was the last fault on it |
| FaultRuns.FullQueueForgetsCopy | fault_handler.c:64-66 | a run in which a full queue makes a present page count as absent |
| FaultRuns.SecondFaultForgetsCopy | fault_handler.c:55-59 | two write faults do the same to any present page with an empty queue |
| FaultRuns.FaultsBeforePop | fault_handler.c:50-66 | before its first request is popped, a page that still counts as present has no request queued, or exactly the write it waits for, and an absent page that waits has one |
| FaultRuns.FaultsServedInOrder | fault_handler.c:61-64 | queued faults are popped once and in the order they happened |
| HomeService.HandlerStarts | fault_handler.c:47-67 | the composition starts where the fault handler leaves the page and the queue |
| HomeService.ActKeeps | network_engine.c:295-406 | every step of the queue, the wakeup and the packets keeps the home node's fault on its way, and all but further pushes lower a measure |
| HomeService.EveryQueuedFaultIsServed | network_engine.c:295-406 | every safe fault of the home node that gets into the queue: after at most 273 steps nothing is left to do, and the home node has the last value stored, as owner if it wrote |

## Left out

- Sockets, epoll and userfaultfd set-up, connecting and accepting, ioctl and madvise beyond their effect on a page, printing, arguments, the Python driver: input and output without provable content.
- The benchmark, the stdin test loop, and the address arithmetic of dsm_core.c: no part of the protocol.
- Page contents in the sequencer: its grants carry zeroed payloads (coordinator_sequencer.c:96-102), so `Protocol` is about permissions and the latest value is proved for the live path.
- `network_engine.c` never calls the sequencer; `Protocol` joins the sequencer to the workers' handlers as the repository's design describes it.
- Overlapping transactions on one page of the live path, and stores during a transaction: the single pending slot is overwritten.
- Physical write permission: UFFDIO_COPY maps read copies writable (network_engine.c:571-577) and a worker's downgrade depends on its own directory, so stores by the owner only is an assumption.
- The sequencer's best-effort send may stop inside a packet (coordinator_sequencer.c:16-23); it is one append here.
- What follows when a connection fails, nodes that disconnect or join later, holders without a connection, and several coordinators.
- Eviction racing with requests in flight: README.md:261-267 of the repository calls these races unresolved. The acknowledgement byte and a failed send of a writeback are ignored, as the code ignores them.
- The 64-bit eventfd counter's overflow, the 32-bit acknowledgement count, and failing allocations.
- Eviction.EvictionRing.FindVictim: the busy entries do not change during the call, where trylock could meet others.
- Eviction.EvictionRing.ExecuteEviction: the same.
- Framing.Connection.SendAll: sends may fail, be partial or take nothing in any pattern, but not refuse or take nothing forever, on which the code itself would not return.
- HomeEngine.HomeNode.OnRequest: sender ids of 64 and above, except where the request is forwarded or out of range, because the code then shifts by 64 or more, which C leaves undefined.
- HomeFaults.FaultsBeforePopGoStale: up to the service of the first request for the page; what the later requests of the same burst do is overlapping transactions.
- HomeTheorems.LatestValueSurvives: only for runs without the two unsafe faults and the unsafe left-over write, because those lose the latest value; `HomeSafety.SafeIffNeverStale`, `HomeLeftovers.LeftoverSafeIffNeverStale` and `HomeTheorems.RunSoundIffSafe` are the exact conditions.
