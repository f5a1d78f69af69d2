/** What evictions do to the copies themselves: the directory beside the set of nodes that really have one. */
module DirectoryCopies {
  import opened Bitmap
  import opened Directory

  /** The entry, and the nodes that have a copy. */
  datatype World = World(dir: Dir, copies: set<nat>)

  const FRESH := World(INITIAL, {})

  /** A reader gains a copy; a writer gains one and the nodes it invalidates lose theirs; an evicting node
      loses its own. */
  function Do(w: World, op: Op): World {
    World(Apply(w.dir, op),
          match op
          case Read(n) => w.copies + {n}
          case Write(n) => w.copies - InvalidateSet(w.dir, n) + {n}
          case Evict(n) => w.copies - {n})
  }

  /** Every copy is known to the directory. */
  predicate Covered(w: World) {
    w.copies <= Holders(w.dir)
  }

  function After(w: World, ops: seq<Op>): World
    decreases |ops|
  {
    if ops == [] then w else After(Do(w, ops[0]), ops[1..])
  }

  predicate AlwaysCovered(w: World, ops: seq<Op>)
    decreases |ops|
  {
    Covered(w) && (ops == [] || AlwaysCovered(Do(w, ops[0]), ops[1..]))
  }

  /** The directory knows exactly the nodes that have a copy. */
  predicate Exact(w: World) {
    WellFormed(w.dir) && w.copies == Holders(w.dir)
  }

  lemma StepCovers(w: World, op: Op)
    requires Exact(w) && IsNode(op.node)
    ensures Covered(Do(w, op)) <==> Legal(w.dir, op)
    ensures Legal(w.dir, op) ==> Exact(Do(w, op))
  {
    StepWellFormed(w.dir, op);
    var after := Do(w, op);
    match op
    case Read(n) => assert after.copies == Holders(after.dir);
    case Write(n) => assert after.copies == Holders(after.dir);
    case Evict(n) =>
      if Legal(w.dir, op) {
        assert after.copies == {};
      } else {
        var other :| other in w.copies && other != n;
        assert other in after.copies;
      }
  }

  /** Over every run from gpd_init: the directory covers every copy in every state passed through exactly
      when every eviction finds no other holder. */
  lemma {:induction false} CoveredIffEvictionsLegal(w: World, ops: seq<Op>)
    requires Exact(w) && OnNodes(ops)
    ensures AlwaysCovered(w, ops) <==> EvictionsLegal(w.dir, ops)
    ensures EvictionsLegal(w.dir, ops) ==> Exact(After(w, ops))
    decreases |ops|
  {
    if ops != [] {
      StepCovers(w, ops[0]);
      var after := Do(w, ops[0]);
      if Legal(w.dir, ops[0]) {
        CoveredIffEvictionsLegal(after, ops[1..]);
      } else {
        assert !AlwaysCovered(after, ops[1..]);
      }
    }
  }

  /** What the next transition makes of an illegal eviction. A write invalidates nobody, so every other copy
      stays beside the writer's. A read finds the sharers that are still in the bitmap and makes them known
      again; a former owner is not in it and stays forgotten unless it is the reader. */
  lemma AfterIllegalEviction(w: World, me: nat, n: nat)
    requires Exact(w) && IsNode(me) && IsNode(n) && !Legal(w.dir, Evict(me))
    ensures var evicted := Do(w, Evict(me));
      && Holders(evicted.dir) == {} && InvalidateSet(evicted.dir, n) == {}
      && evicted.copies == w.copies - {me} && evicted.copies != {}
      && Do(evicted, Write(n)).copies == evicted.copies + {n}
      && (Covered(Do(evicted, Write(n))) <==> w.copies <= {me, n})
      && (Covered(Do(evicted, Read(n))) <==> w.dir.state == SHARED || w.dir.owner == n)
  {
    StepCovers(w, Evict(me));
    var evicted := Do(w, Evict(me));
    var other :| other in w.copies && other != me;
    assert other in evicted.copies;
    assert Do(evicted, Write(n)).copies == evicted.copies + {n};
    if w.copies <= {me, n} {
      assert evicted.copies <= {n};
    } else {
      var third :| third in w.copies && third !in {me, n};
      assert third in Do(evicted, Write(n)).copies;
    }
    if w.dir.state == MODIFIED {
      assert w.copies == {w.dir.owner};
      assert evicted.copies == {w.dir.owner};
    }
  }

  /** It happens: nodes 1 and 2 read, node 1 evicts its copy, node 3 writes, and node 2 still has the page. */
  lemma EvictionBreaksSingleWriter() returns (ops: seq<Op>)
    ensures OnNodes(ops) && ops == [Read(1), Read(2), Evict(1), Write(3)]
    ensures !EvictionsLegal(INITIAL, ops)
    ensures After(FRESH, ops) == World(Dir(MODIFIED, 3, {}), {2, 3})
  {
    ops := [Read(1), Read(2), Evict(1), Write(3)];
    var a := Do(FRESH, Read(1));
    var b := Do(a, Read(2));
    assert a == World(Dir(SHARED, 0, {1}), {1});
    assert b == World(Dir(SHARED, 0, {1, 2}), {1, 2});
    var c := Do(b, Evict(1));
    assert c == World(Dir(INVALID, 0, {2}), {2});
    var d := Do(c, Write(3));
    assert d == World(Dir(MODIFIED, 3, {}), {2, 3});
    assert ops[1..] == [Read(2), Evict(1), Write(3)];
    assert ops[1..][1..] == [Evict(1), Write(3)];
    assert ops[1..][1..][1..] == [Write(3)];
    assert After(c, [Write(3)]) == After(d, []) == d;
    assert After(b, [Evict(1), Write(3)]) == d;
    assert After(a, ops[1..]) == d;
    assert !Legal(b.dir, Evict(1)) by {
      assert 2 in Holders(b.dir);
    }
    assert !EvictionsLegal(b.dir, [Evict(1), Write(3)]);
    assert !EvictionsLegal(a.dir, ops[1..]);
  }
}
