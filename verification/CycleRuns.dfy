// Starting a cycle, sweeping, and the safety of whole runs.

module CycleRuns {
  import opened Basics
  import opened MajorHeap
  import opened Marking
  import opened Cycles
  import opened CycleSafety

  // ---------------------------------------------------------------- starting a cycle

  ghost function Live(s: State): set<Addr> {
    set a | a in s.heap && Reachable(s, a)
  }

  lemma RootReachable(s: State, r: Addr)
    requires r in s.roots
    ensures Reachable(s, r)
  {
    assert Path(s, [r]) && [r][0] == r;
  }

  lemma EdgeReachable(s: State, a: Addr, b: Addr)
    requires Reachable(s, a) && Edge(s.heap, a, b)
    ensures Reachable(s, b)
  {
    var p :| Path(s, p) && p[|p| - 1] == a;
    var q := p + [b];
    assert forall i :: 0 <= i < |p| ==> q[i] == p[i];
    assert Path(s, q) && q[|q| - 1] == b;
  }

  /** The reachable blocks are themselves a kept set. */
  lemma LiveCommon(s: State, keep: set<Addr>)
    requires Inv(s, keep) && s.phase == Idle
    ensures Common(s, Live(s)) && Live(s) <= keep
  {
    forall a | a in Live(s) ensures a in keep { ReachableKept(s, keep, a); }
    forall r | r in s.roots ensures r in Live(s) { RootReachable(s, r); }
    forall a | a in Live(s) ensures KeptFields(s.heap[a], Live(s)) {
      assert KeptFields(s.heap[a], keep);
      forall i | s.heap[a].scan && 0 <= i < |s.heap[a].fields| && s.heap[a].fields[i].Ptr?
        ensures s.heap[a].fields[i].target in Live(s)
      {
        assert Ptr(s.heap[a].fields[i].target) in s.heap[a].fields;
        EdgeReachable(s, a, s.heap[a].fields[i].target);
      }
    }
  }

  /** A path that leads into `x` either starts in `x` or crosses its border. */
  lemma {:induction false} PathCrosses(s: State, p: seq<Addr>, k: nat, x: set<Addr>)
    requires Path(s, p) && k < |p| && p[k] in x
    ensures p[0] in x || exists j :: 0 <= j < k && p[j] !in x && p[j + 1] in x
  {
    if k > 0 && p[k - 1] in x {
      PathCrosses(s, p, k - 1, x);
    } else if k > 0 {
      assert p[k - 1] !in x && p[(k - 1) + 1] in x;
    }
  }

  lemma PrefixReachable(s: State, p: seq<Addr>, j: nat)
    requires Path(s, p) && j < |p|
    ensures Reachable(s, p[j])
  {
    var q := p[..j + 1];
    assert Path(s, q) && q[|q| - 1] == p[j];
  }

  /** At the start of a cycle every white set of live blocks is entered or contains a root. */
  lemma StartProtected(s: State, keep: set<Addr>)
    requires Inv(s, keep) && s.phase == Idle
    ensures Protected(s, Live(s), s.roots)
  {
    LiveCommon(s, keep);
    forall x: set<Addr> | x != {} && x <= Whites(s, Live(s))
      ensures Entered(s, Live(s), x) || x * s.roots != {}
    {
      var a :| a in x;
      var p :| Path(s, p) && p[|p| - 1] == a;
      PathCrosses(s, p, |p| - 1, x);
      if p[0] in x {
        assert p[0] in x * s.roots;
      } else {
        var j :| 0 <= j < |p| - 1 && p[j] !in x && p[j + 1] in x;
        PrefixReachable(s, p, j);
        assert Edge(s.heap, p[j], p[j + 1]);
        var i :| 0 <= i < |s.heap[p[j]].fields| && s.heap[p[j]].fields[i] == Ptr(p[j + 1]);
        assert p[j] in Live(s) && s.heap[p[j]].color == White;
        assert EntersAt(s, Live(s), x, p[j], i);
      }
    }
  }

  lemma {:induction false} DarkenAllKeeps(s: State, keep: set<Addr>, pending: set<Addr>, order: seq<Addr>,
      rooms: seq<Room>)
    requires MarkInv(s, keep, pending) && |rooms| == |order|
    requires (forall r :: r in order ==> r in keep) && forall r :: r in pending ==> r in order
    ensures forall r :: r in order ==> r in s.heap
    ensures MarkInv(DarkenAll(s, order, rooms), keep, {}) && DarkenAll(s, order, rooms).phase == s.phase
    decreases |order|
  {
    if order == [] {
      assert pending == {};
    } else {
      var t := Darken(s, order[0], rooms[0]);
      DarkenKeeps(s, keep, pending, order[0], rooms[0]);
      assert t.heap.Keys == s.heap.Keys;
      DarkenAllKeeps(t, keep, pending - {order[0]}, order[1..], rooms[1..]);
    }
  }

  lemma StartKeeps(s: State, keep: set<Addr>, order: seq<Addr>, rooms: seq<Room>)
    requires Inv(s, keep) && Enabled(s, StartCycle(order, rooms))
    ensures Inv(BeginCycle(s, order, rooms), Live(s))
  {
    var t, live := s.(phase := Mark, subphase := MarkRoots, markhp := None), Live(s);
    LiveCommon(s, keep);
    StartProtected(s, keep);
    assert Common(t, live);
    assert Whites(t, live) == Whites(s, live);
    forall x: set<Addr> | x != {} && x <= Whites(t, live) && x * t.roots == {} ensures Entered(t, live, x) {
      assert Entered(s, live, x);
      var p, i :| EntersAt(s, live, x, p, i);
      assert EntersAt(t, live, x, p, i);
    }
    DarkenAllKeeps(t, live, s.roots, order, rooms);
  }

  // ---------------------------------------------------------------- sweeping

  lemma SweepNextChunk(s: State, keep: set<Addr>)
    requires Inv(s, keep) && s.phase == Sweep && s.sweephp == s.chunk.limit
    ensures Inv(SweepStep(s), keep)
  {
    var t := SweepStep(s);
    forall a | a in s.heap && s.sweephp <= a ensures t.phase == Sweep && t.sweephp <= a {
      GapIsEmpty(s, s.chunk, a);
    }
    if t.phase == Sweep { NextChunkBoundary(s, t.chunk); }
    assert Common(t, keep);
  }

  /** Recolouring the swept block and moving past it. */
  ghost predicate Swept(s: State, t: State, keep: set<Addr>, h: Addr) {
    && h == s.sweephp && h in s.heap && SameLengths(s.heap, t.heap)
    && (forall a :: a in s.heap && a != h ==> t.heap[a] == s.heap[a])
    && (t.heap[h].color == White || t.heap[h].color == Blue)
    && (h in keep ==> t.heap[h] == s.heap[h].(color := White))
    && t == s.(heap := t.heap, free := t.free, sweephp := End(s.heap, h))
    && t.free <= s.free + (if h in keep then {} else {h})
  }

  ghost predicate SameLengths(h: map<Addr, Block>, k: map<Addr, Block>) {
    h.Keys == k.Keys && forall x :: x in h ==> |k[x].fields| == |h[x].fields|
  }

  lemma LengthsKeepLayout(s: State, t: State)
    requires Layout(s) && SameLengths(s.heap, t.heap) && t.chunks == s.chunks && t.free <= t.heap.Keys
    ensures Layout(t)
  {
    assert forall x :: x in s.heap ==> End(t.heap, x) == End(s.heap, x);
    forall c, a | c in t.chunks && a in t.heap && c.start <= a < c.limit ensures Follows(t.heap, c, a) {
      assert Follows(s.heap, c, a);
    }
  }

  lemma SweptCommon(s: State, t: State, keep: set<Addr>, h: Addr)
    requires Common(s, keep) && Swept(s, t, keep, h)
    ensures Common(t, keep)
  {
    LengthsKeepLayout(s, t);
    forall x | x in keep ensures t.heap[x].color != Blue && |t.heap[x].fields| > 0 && KeptFields(t.heap[x], keep) {
      assert KeptFields(s.heap[x], keep);
    }
  }

  lemma SweptState(s: State, t: State, keep: set<Addr>, h: Addr)
    requires Layout(s) && SweepState(s, keep) && Swept(s, t, keep, h) && h != s.chunk.limit
    ensures SweepState(t, keep)
  {
    assert Follows(s.heap, s.chunk, h);
    assert forall x :: x in s.heap ==> End(t.heap, x) == End(s.heap, x);
    assert forall a :: a in s.heap && a < t.sweephp ==> a <= h;
  }

  lemma SweptInv(s: State, t: State, keep: set<Addr>, h: Addr)
    requires Inv(s, keep) && s.phase == Sweep && h != s.chunk.limit && Swept(s, t, keep, h)
    ensures Inv(t, keep)
  {
    SweptCommon(s, t, keep, h);
    SweptState(s, t, keep, h);
  }

  /** One step of the sweeper keeps the invariant: it frees only blocks outside the kept set. */
  lemma SweepKeeps(s: State, keep: set<Addr>)
    requires Inv(s, keep) && s.phase == Sweep
    ensures s.sweephp == s.chunk.limit || s.sweephp in s.heap
    ensures Inv(SweepStep(s), keep)
  {
    if s.sweephp == s.chunk.limit {
      SweepNextChunk(s, keep);
    } else {
      SweptInv(s, SweepStep(s), keep, s.sweephp);
    }
  }

  // ---------------------------------------------------------------- coalescing

  ghost predicate Merged(s: State, t: State, low: Addr, high: Addr) {
    && low in s.heap && high in s.heap && low < high && End(s.heap, low) == high
    && t.heap.Keys == s.heap.Keys - {high}
    && (forall x :: x in t.heap && x != low ==> t.heap[x] == s.heap[x])
    && End(t.heap, low) == End(s.heap, high) && t.heap[low].color == Blue
    && t == s.(heap := t.heap, free := s.free - {high} + {low})
  }

  lemma MergedDisjoint(s: State, t: State, low: Addr, high: Addr)
    requires Disjoint(s.heap) && Merged(s, t, low, high)
    ensures Disjoint(t.heap)
    ensures forall x :: x in t.heap && x != low ==> End(t.heap, x) == End(s.heap, x)
  {
  }

  lemma MergedTiled(s: State, t: State, low: Addr, high: Addr, c: Chunk)
    requires Layout(s) && Merged(s, t, low, high)
    requires c in s.chunks && c.start <= low && End(s.heap, high) <= c.limit
    ensures Tiled(t.heap, t.chunks)
  {
    assert forall d :: d in s.chunks && d != c ==> d.limit <= c.start || c.limit <= d.start;
    forall d, x | d in t.chunks && x in t.heap && d.start <= x < d.limit ensures Follows(t.heap, d, x) {
      assert Follows(s.heap, d, x);
      if x == low { assert Follows(s.heap, c, high); }
    }
    forall x | x in t.heap ensures Covered(t.chunks, x) { assert Covered(s.chunks, x); }
  }

  lemma MergedCommon(s: State, t: State, keep: set<Addr>, low: Addr, high: Addr, c: Chunk)
    requires Common(s, keep) && Merged(s, t, low, high) && low !in keep && high !in keep
    requires c in s.chunks && c.start <= low && End(s.heap, high) <= c.limit
    ensures Common(t, keep)
  {
    MergedDisjoint(s, t, low, high);
    MergedTiled(s, t, low, high, c);
    forall x | x in keep ensures KeptFields(t.heap[x], keep) { assert KeptFields(s.heap[x], keep); }
  }

  lemma MergedSweep(s: State, t: State, keep: set<Addr>, low: Addr, high: Addr)
    requires SweepState(s, keep) && Merged(s, t, low, high) && End(s.heap, high) <= s.sweephp
    ensures SweepState(t, keep)
  {
  }

  lemma CoalesceKeeps(s: State, keep: set<Addr>, low: Addr, high: Addr)
    requires Inv(s, keep) && Enabled(s, Coalesce(low, high))
    ensures Inv(Merge(s, low, high), keep)
  {
    var t := Merge(s, low, high);
    var c :| c in s.chunks && c.start <= low && End(s.heap, high) <= c.limit;
    MergedCommon(s, t, keep, low, high, c);
    MergedSweep(s, t, keep, low, high);
  }

  // ---------------------------------------------------------------- whole runs

  lemma MutateKeeps(s: State, keep: set<Addr>, r: set<Addr>)
    requires Inv(s, keep) && forall a :: a in r ==> Reachable(s, a)
    ensures Inv(s.(roots := r), keep)
  {
    forall a | a in r ensures a in keep { ReachableKept(s, keep, a); }
    if s.phase == Mark { SameMarksProtection(s, s.(roots := r), keep, {}); }
  }

  lemma ClearKeeps(s: State, keep: set<Addr>)
    requires Inv(s, keep) && Enabled(s, ClearRefTable)
    ensures Inv(s.(refTable := {}), keep)
  {
    var t := s.(refTable := {});
    assert Remembered(t, keep);
    if s.phase == Mark { SameMarksProtection(s, t, keep, {}); }
  }

  /** A cycle keeps what is reachable when it starts, and what is allocated from then on. */
  ghost function KeptAfter(s: State, keep: set<Addr>, e: Event): set<Addr>
    requires Enabled(s, e)
  {
    match e
    case Allocate(from, _, contents, _) => keep + {PlaceIn(s.heap, from, |contents|)}
    case StartCycle(_, _) => Live(s)
    case _ => keep
  }

  /** Every event keeps the invariant, for the kept set that it leads to. */
  lemma EventKeeps(s: State, keep: set<Addr>, e: Event)
    requires Inv(s, keep) && Enabled(s, e)
    ensures Inv(Apply(s, e), KeptAfter(s, keep, e))
  {
    match e
    case Modify(a, i, v, room) =>
      ReachableKept(s, keep, a);
      if v.Ptr? { ReachableKept(s, keep, v.target); }
      ModifyKeeps(s, keep, a, i, v, room);
    case Initialize(a, i, v) =>
      if v.Ptr? { ReachableKept(s, keep, v.target); }
      InitializeKeeps(s, keep, a, i, v);
    case Allocate(from, scan, contents, rest) =>
      forall v | v in contents && v.Ptr? ensures v.target in keep { ReachableKept(s, keep, v.target); }
      AllocateKeeps(s, keep, from, scan, contents, rest);
    case Expand(c) => ExpandKeeps(s, keep, c);
    case Mutate(r) => MutateKeeps(s, keep, r);
    case ClearRefTable => ClearKeeps(s, keep);
    case StartCycle(order, rooms) => StartKeeps(s, keep, order, rooms);
    case MarkOne(room, dropped) => MarkStepKeeps(s, keep, room, dropped);
    case SweepOne => SweepKeeps(s, keep);
    case Coalesce(low, high) => CoalesceKeeps(s, keep, low, high);
  }

  /** A run: each event is enabled where it happens. */
  ghost predicate Run(s: State, es: seq<Event>, t: State)
    decreases |es|
  {
    if es == [] then t == s else Enabled(s, es[0]) && Run(Apply(s, es[0]), es[1..], t)
  }

  /** A heap of free blocks only, with the collector idle and no root. */
  ghost predicate Initial(s: State) {
    && Layout(s) && s.phase == Idle && Quiet(s) && s.roots == {} && s.graySize >= 2
    && forall a :: a in s.heap ==> s.heap[a].color == Blue
  }

  lemma {:induction false} RunKeeps(s: State, keep: set<Addr>, es: seq<Event>, t: State) returns (last: set<Addr>)
    requires Inv(s, keep) && Run(s, es, t)
    ensures Inv(t, last)
    decreases |es|
  {
    if es == [] {
      last := keep;
    } else {
      EventKeeps(s, keep, es[0]);
      last := RunKeeps(Apply(s, es[0]), KeptAfter(s, keep, es[0]), es[1..], t);
    }
  }

  /** Safety over every run: no reachable block is ever in the free list, and every pointer the
      mutator can follow leads to a block of the heap. */
  lemma NoReachableBlockIsFreed(s: State, es: seq<Event>, t: State, a: Addr)
    requires Initial(s) && Run(s, es, t) && Reachable(t, a)
    ensures a in t.heap && a !in t.free && t.heap[a].color != Blue
  {
    assert Inv(s, {});
    var keep := RunKeeps(s, {}, es, t);
    ReachableKept(t, keep, a);
  }

  /** Marking ends only when no gray block remains, and then every reachable block is black. */
  lemma MarkingEndsComplete(s: State, es: seq<Event>, t: State, room: Room, dropped: set<Addr>)
    requires Initial(s) && Run(s, es, t) && Enabled(t, MarkOne(room, dropped))
    requires t.phase == Mark && Apply(t, MarkOne(room, dropped)).phase == Sweep
    ensures forall a :: a in t.heap ==> t.heap[a].color != Gray
    ensures forall a :: Reachable(t, a) ==> a in t.heap && t.heap[a].color == Black
  {
    assert Inv(s, {});
    var keep := RunKeeps(s, {}, es, t);
    MarkDoneNoGray(t, keep);
    MarkDoneAllBlack(t, keep);
    forall a | Reachable(t, a) ensures a in t.heap && t.heap[a].color == Black { ReachableKept(t, keep, a); }
  }

  /** The collector's own events. */
  predicate CollectorEvent(e: Event) {
    e.StartCycle? || e.MarkOne? || e.SweepOne? || e.Coalesce? || e.Expand?
  }

  lemma {:induction false} DarkenAllFrame(s: State, order: seq<Addr>, rooms: seq<Room>)
    requires |rooms| == |order| && forall r :: r in order ==> r in s.heap
    ensures SameShape(s.heap, DarkenAll(s, order, rooms).heap)
    decreases |order|
  {
    if order != [] {
      var t := Darken(s, order[0], rooms[0]);
      assert SameShape(s.heap, t.heap);
      DarkenAllFrame(t, order[1..], rooms[1..]);
    }
  }

  lemma DarkenChildFrame(s: State, v: Value, room: Room)
    requires v.Ptr? ==> v.target in s.heap
    ensures SameShape(s.heap, DarkenChild(s, v, room).heap)
  {
    if v.Ptr? { PushFrame(SetColor(s, v.target, Gray), v.target, room); }
  }

  lemma MarkStepFrame(s: State, room: Room, dropped: set<Addr>)
    requires Steppable(s)
    ensures SameShape(s.heap, MarkStep(s, room, dropped).heap)
  {
    if s.current.Some? && s.index < |s.heap[s.current.value].fields| && s.heap[s.current.value].scan {
      DarkenChildFrame(s, s.heap[s.current.value].fields[s.index], room);
    }
  }

  lemma SweepFrame(s: State, keep: set<Addr>)
    requires Inv(s, keep) && s.phase == Sweep && (s.sweephp == s.chunk.limit || s.sweephp in s.heap)
    ensures var u := SweepStep(s);
            forall a :: a in keep ==> a in u.heap && u.heap[a].fields == s.heap[a].fields && u.heap[a].scan == s.heap[a].scan
  {
  }

  lemma CollectorFrame(t: State, keep: set<Addr>, e: Event, a: Addr)
    requires Inv(t, keep) && CollectorEvent(e) && Enabled(t, e) && a in keep
    ensures var u := Apply(t, e);
            a in u.heap && u.heap[a].fields == t.heap[a].fields && u.heap[a].scan == t.heap[a].scan
  {
    match e
    case StartCycle(order, rooms) => DarkenAllFrame(t.(phase := Mark, subphase := MarkRoots, markhp := None), order,
        rooms);
    case MarkOne(room, dropped) => MarkStepFrame(t, room, dropped);
    case SweepOne => SweepFrame(t, keep);
    case Coalesce(low, high) =>
    case Expand(c) => ExpandEffect(t, c);
  }

  /** No step of the collector changes the contents of a block the mutator can reach. */
  lemma CollectorLeavesContents(s: State, es: seq<Event>, t: State, e: Event, a: Addr)
    requires Initial(s) && Run(s, es, t) && CollectorEvent(e) && Enabled(t, e) && Reachable(t, a)
    ensures var u := Apply(t, e);
            a in t.heap && a in u.heap && u.heap[a].fields == t.heap[a].fields && u.heap[a].scan == t.heap[a].scan
  {
    assert Inv(s, {});
    var keep := RunKeeps(s, {}, es, t);
    ReachableKept(t, keep, a);
    CollectorFrame(t, keep, e, a);
  }
}
