/** The Global Page Directory of gpd.c, and the two directory accessors of eviction.c.
    An entry is stored with a 64-bit bitmap; its meaning is a set of nodes. */
module Directory {
  import opened Bitmap

  datatype MsiState = MODIFIED | SHARED | INVALID

  /** What an entry means: the bitmap read as a set. */
  datatype Dir = Dir(state: MsiState, owner: nat, sharers: set<nat>)

  const INITIAL := Dir(INVALID, 0, {})

  predicate IsNode(n: nat) {
    1 <= n < WIDTH
  }

  /** A set of numbers below k has at most k elements. */
  lemma {:induction false} CardinalityBelow(x: set<nat>, k: nat)
    requires forall e <- x :: e < k
    ensures |x| <= k
    decreases k
  {
    if k == 0 {
      assert x == {};
    } else {
      CardinalityBelow(x - {k - 1}, k - 1);
    }
  }

  // ---- Set-level meaning of the directory operations ----

  /** The nodes the directory believes to hold a copy. */
  function Holders(d: Dir): set<nat> {
    match d.state
    case MODIFIED => if d.owner != 0 then {d.owner} else {}
    case SHARED => d.sharers
    case INVALID => {}
  }

  function ToShared(d: Dir, reader: nat): Dir {
    Dir(SHARED, 0, if d.state == MODIFIED then {d.owner, reader} else d.sharers + {reader})
  }

  function ToModified(d: Dir, writer: nat): Dir {
    Dir(MODIFIED, writer, {})
  }

  function InvalidateSet(d: Dir, writer: nat): set<nat> {
    Holders(d) - {writer}
  }

  /** get_local_msi_state: the state of the page as node `me` sees it. */
  function LocalView(d: Dir, me: nat): MsiState {
    match d.state
    case INVALID => INVALID
    case MODIFIED => if d.owner == me then MODIFIED else INVALID
    case SHARED => if me in d.sharers then SHARED else INVALID
  }

  /** set_local_msi_state */
  function SetLocal(d: Dir, me: nat, st: MsiState): Dir {
    if st == INVALID
    then Dir(INVALID, if d.owner == me then 0 else d.owner, d.sharers - {me})
    else d.(state := st)
  }

  // ---- Well-formedness and the textbook MSI directory ----

  predicate WellFormed(d: Dir) {
    match d.state
    case INVALID => d.owner == 0 && d.sharers == {}
    case MODIFIED => IsNode(d.owner) && d.sharers == {}
    case SHARED => d.owner == 0 && d.sharers != {} && forall n <- d.sharers :: IsNode(n)
  }

  /** The textbook directory: nobody, some readers, or one writer. */
  datatype Msi = Absent | Readers(nodes: set<nat>) | Writer(node: nat)

  function Meaning(d: Dir): Msi {
    match d.state
    case INVALID => Absent
    case MODIFIED => Writer(d.owner)
    case SHARED => Readers(d.sharers)
  }

  datatype Op = Read(node: nat) | Write(node: nat) | Evict(node: nat)

  function Apply(d: Dir, op: Op): Dir {
    match op
    case Read(n) => ToShared(d, n)
    case Write(n) => ToModified(d, n)
    case Evict(n) => SetLocal(d, n, INVALID)
  }

  function MsiApply(m: Msi, op: Op): Msi {
    match op
    case Write(n) => Writer(n)
    case Evict(n) => Absent
    case Read(n) =>
      match m
      case Absent => Readers({n})
      case Readers(s) => Readers(s + {n})
      case Writer(w) => Readers({w, n})
  }

  function Run(d: Dir, ops: seq<Op>): Dir
    decreases |ops|
  {
    if ops == [] then d else Run(Apply(d, ops[0]), ops[1..])
  }

  function MsiRun(m: Msi, ops: seq<Op>): Msi
    decreases |ops|
  {
    if ops == [] then m else MsiRun(MsiApply(m, ops[0]), ops[1..])
  }

  /** An eviction is safe for the directory when no other node holds the page. */
  predicate Legal(d: Dir, op: Op) {
    op.Evict? ==> Holders(d) <= {op.node}
  }

  predicate EvictionsLegal(d: Dir, ops: seq<Op>)
    decreases |ops|
  {
    ops == [] || (Legal(d, ops[0]) && EvictionsLegal(Apply(d, ops[0]), ops[1..]))
  }

  predicate StaysWellFormed(d: Dir, ops: seq<Op>)
    decreases |ops|
  {
    WellFormed(d) && (ops == [] || StaysWellFormed(Apply(d, ops[0]), ops[1..]))
  }

  predicate OnNodes(ops: seq<Op>) {
    forall op <- ops :: IsNode(op.node)
  }

  /** One operation keeps a well-formed entry well-formed exactly when it is a transition or a legal
      eviction, and then it does what the textbook directory does. */
  lemma StepWellFormed(d: Dir, op: Op)
    requires WellFormed(d) && IsNode(op.node)
    ensures WellFormed(Apply(d, op)) <==> Legal(d, op)
    ensures Legal(d, op) ==> Meaning(Apply(d, op)) == MsiApply(Meaning(d), op)
  {
    if op.Evict? && d.state == SHARED {
      assert d.sharers - {op.node} == {} <==> d.sharers <= {op.node};
    }
  }

  /** A mixed run of reads, writes and evictions stays well-formed throughout exactly when every eviction
      in it finds no other holder, and then it refines the textbook run. */
  lemma {:induction false} RunWellFormed(d: Dir, ops: seq<Op>)
    requires WellFormed(d) && OnNodes(ops)
    ensures StaysWellFormed(d, ops) <==> EvictionsLegal(d, ops)
    ensures EvictionsLegal(d, ops) ==> WellFormed(Run(d, ops)) && Meaning(Run(d, ops)) == MsiRun(Meaning(d), ops)
    decreases |ops|
  {
    if ops == [] {
    } else {
      StepWellFormed(d, ops[0]);
      if Legal(d, ops[0]) {
        RunWellFormed(Apply(d, ops[0]), ops[1..]);
      } else {
        IllFormedStart(Apply(d, ops[0]), ops[1..]);
      }
    }
  }

  lemma IllFormedStart(d: Dir, ops: seq<Op>)
    requires !WellFormed(d)
    ensures !StaysWellFormed(d, ops)
  {
  }

  /** In a well-formed entry the per-node views obey MSI, and a node sees a copy exactly when it is a holder. */
  lemma ViewsObeyMsi(d: Dir, a: nat, b: nat)
    requires WellFormed(d) && IsNode(a) && IsNode(b) && a != b
    ensures LocalView(d, a) == MODIFIED ==> LocalView(d, b) == INVALID
    ensures LocalView(d, a) != INVALID <==> a in Holders(d)
    ensures LocalView(d, a) == MODIFIED <==> Meaning(d) == Writer(a)
  {
  }

  /** What the eviction's update does to the views: after INVALID nobody sees a copy, the evicting node is recorded
      nowhere, and the record of the other nodes is kept; after any other state, the nodes the entry lists for
      it do. */
  lemma SetLocalViews(d: Dir, me: nat, st: MsiState, n: nat)
    ensures var t := SetLocal(d, me, st);
      && t.state == st
      && (LocalView(t, n) == st || LocalView(t, n) == INVALID)
      && (st == INVALID ==> me !in t.sharers && (me != 0 ==> t.owner != me))
      && (n != me || st != INVALID ==> (n in t.sharers <==> n in d.sharers) && (n != 0 ==> (t.owner == n <==> d.owner == n)))
  {
  }

  // ---- The stored entry ----

  /** One element of the directory array. */
  datatype GpdEntry = GpdEntry(state: MsiState, owner: nat, bitmap: bv64)

  function View(e: GpdEntry): Dir {
    Dir(e.state, e.owner, Members(e.bitmap))
  }

  /** gpd.c's directory. `pthread_mutex_lock` makes each method atomic, so a method is one step. */
  class GlobalPageDirectory {
    const entries: array<GpdEntry>

    /** Every stored owner can be shifted by: the source computes 1ULL << owner. */
    ghost predicate Valid()
      reads this, entries
    {
      forall i :: 0 <= i < entries.Length ==> entries[i].owner < WIDTH
    }

    ghost function At(page: nat): Dir
      requires page < entries.Length
      reads entries
    {
      View(entries[page])
    }

    /** gpd_init */
    constructor (totalPages: nat)
      ensures Valid() && fresh(entries) && entries.Length == totalPages
      ensures forall p :: 0 <= p < totalPages ==> At(p) == INITIAL
    {
      entries := new GpdEntry[totalPages](_ => GpdEntry(INVALID, 0, 0));
      new;
      MembersOfZero();
    }

    method GetState(page: nat) returns (st: MsiState)
      requires page < entries.Length
      ensures st == At(page).state
    {
      st := entries[page].state;
    }

    method GetOwner(page: nat) returns (owner: nat)
      requires page < entries.Length
      ensures owner == At(page).owner
    {
      owner := entries[page].owner;
    }

    /** gpd_transition_to_shared */
    method TransitionToShared(page: nat, reader: nat) returns (ok: bool, oldOwner: nat)
      requires Valid() && reader < WIDTH
      modifies entries
      ensures Valid()
      ensures ok == (page < entries.Length)
      ensures ok ==> oldOwner == old(At(page)).owner && At(page) == ToShared(old(At(page)), reader)
      ensures forall p :: 0 <= p < entries.Length && p != page ==> entries[p] == old(entries[p])
    {
      if page >= entries.Length {
        return false, 0;
      }
      var current := entries[page].state;
      oldOwner := entries[page].owner;
      ghost var before := entries[page].bitmap;
      if current == MODIFIED {
        entries[page] := entries[page].(state := SHARED);
        entries[page] := entries[page].(owner := 0);
        var mask := Or(Bit(oldOwner), Bit(reader));
        entries[page] := entries[page].(bitmap := mask);
        MembersOfBit(oldOwner);
        MembersOr(Bit(oldOwner), reader);
      } else {
        entries[page] := entries[page].(state := SHARED);
        entries[page] := entries[page].(owner := 0);
        var mask := entries[page].bitmap;
        entries[page] := entries[page].(bitmap := Or(mask, Bit(reader)));
        MembersOr(before, reader);
      }
      ok := true;
    }

    /** gpd_transition_to_modified */
    method TransitionToModified(page: nat, writer: nat) returns (ok: bool, invalidateMask: bv64)
      requires Valid() && writer < WIDTH
      modifies entries
      ensures Valid()
      ensures ok == (page < entries.Length)
      ensures ok ==> At(page) == ToModified(old(At(page)), writer)
      ensures ok ==> Members(invalidateMask) == InvalidateSet(old(At(page)), writer)
      ensures forall p :: 0 <= p < entries.Length && p != page ==> entries[p] == old(entries[p])
    {
      if page >= entries.Length {
        return false, 0;
      }
      var holders: bv64 := 0;
      MembersOfZero();
      if entries[page].state == MODIFIED {
        var prevOwner := entries[page].owner;
        if prevOwner != 0 {
          holders := Bit(prevOwner);
          MembersOfBit(prevOwner);
        }
      } else if entries[page].state == SHARED {
        holders := entries[page].bitmap;
      }
      assert Members(holders) == Holders(old(At(page)));
      invalidateMask := AndNot(holders, Bit(writer));
      MembersAndNot(holders, writer);
      entries[page] := entries[page].(state := MODIFIED);
      entries[page] := entries[page].(owner := writer);
      entries[page] := entries[page].(bitmap := 0);
      ok := true;
    }

    /** eviction.c: get_local_msi_state */
    method GetLocalState(page: nat, me: nat) returns (st: MsiState)
      requires Valid() && me < WIDTH
      ensures st == if page < entries.Length then LocalView(At(page), me) else INVALID
    {
      if page >= entries.Length {
        return INVALID;
      }
      var state := GetState(page);
      if state == INVALID {
        return INVALID;
      }
      if state == MODIFIED {
        var owner := GetOwner(page);
        return if owner == me then MODIFIED else INVALID;
      }
      return if Has(entries[page].bitmap, me) then SHARED else INVALID;
    }

    /** eviction.c: set_local_msi_state */
    method SetLocalState(page: nat, me: nat, st: MsiState)
      requires Valid() && me < WIDTH
      modifies entries
      ensures Valid()
      ensures page < entries.Length ==> At(page) == SetLocal(old(At(page)), me, st)
      ensures forall p :: 0 <= p < entries.Length && p != page ==> entries[p] == old(entries[p])
    {
      if page >= entries.Length {
        return;
      }
      entries[page] := entries[page].(state := st);
      if st == INVALID {
        var mask := entries[page].bitmap;
        MembersAndNot(mask, me);
        mask := AndNot(mask, Bit(me));
        entries[page] := entries[page].(bitmap := mask);
        if entries[page].owner == me {
          entries[page] := entries[page].(owner := 0);
        }
      }
    }
  }
}
