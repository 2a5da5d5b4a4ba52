// What the sweeper gives back: blocks that need not be kept end up in the free
// list, in every run.

module Reclaiming {
  import opened Basics
  import opened MajorHeap
  import opened Marking
  import opened Cycles
  import opened CycleSafety
  import opened CycleRuns

  /** Every blue block with fields is in the free list. */
  ghost predicate BluesListed(s: State) {
    forall a :: a in s.heap && s.heap[a].color == Blue && s.heap[a].fields != [] ==> a in s.free
  }

  /** The sweeper has reached block `a`. */
  predicate Passed(s: State, a: Addr) {
    s.phase == Idle || (s.phase == Sweep && a < s.sweephp)
  }

  /** Nothing with fields is left behind the sweeper but blocks to be kept and free blocks. */
  ghost predicate Reclaimed(s: State, keep: set<Addr>) {
    && BluesListed(s)
    && forall a :: a in s.heap && Passed(s, a) && s.heap[a].fields != [] && a !in keep ==> a in s.free
  }

  // ---------------------------------------------------------------- events that change no blue block

  ghost predicate SameBlues(s: State, t: State) {
    && t.free == s.free && t.heap.Keys == s.heap.Keys
    && forall x :: x in s.heap ==> (t.heap[x].color == Blue <==> s.heap[x].color == Blue)
                                   && |t.heap[x].fields| == |s.heap[x].fields|
  }

  lemma SameBluesKeep(s: State, t: State, keep: set<Addr>)
    requires Reclaimed(s, keep) && SameBlues(s, t)
    requires t.phase == Mark || (t.phase == s.phase && t.sweephp == s.sweephp)
    ensures Reclaimed(t, keep)
  {
  }

  lemma DarkenBlues(s: State, a: Addr, room: Room)
    requires a in s.heap
    ensures SameBlues(s, Darken(s, a, room)) && Darken(s, a, room).phase == s.phase && Darken(s, a, room).sweephp == s.sweephp
  {
  }

  lemma {:induction false} DarkenAllBlues(s: State, order: seq<Addr>, rooms: seq<Room>)
    requires |rooms| == |order| && forall r :: r in order ==> r in s.heap
    ensures SameBlues(s, DarkenAll(s, order, rooms)) && DarkenAll(s, order, rooms).phase == s.phase
    decreases |order|
  {
    if order != [] {
      DarkenBlues(s, order[0], rooms[0]);
      DarkenAllBlues(Darken(s, order[0], rooms[0]), order[1..], rooms[1..]);
    }
  }

  lemma ModifyBlues(s: State, a: Addr, i: nat, v: Value, room: Room)
    requires a in s.heap && i < |s.heap[a].fields|
    requires s.heap[a].fields[i].Ptr? ==> s.heap[a].fields[i].target in s.heap
    ensures var t := ModifySlot(s, a, i, v, room); SameBlues(s, t) && t.phase == s.phase && t.sweephp == s.sweephp
  {
    var prior, t := s.heap[a].fields[i], Write(s, a, i, v);
    assert SameBlues(s, t) && t.phase == s.phase && t.sweephp == s.sweephp;
    if prior.Ptr? && s.phase == Mark {
      DarkenBlues(t, prior.target, room);
      RememberBlues(s, Darken(t, prior.target, room), a, i, v);
    } else {
      RememberBlues(s, t, a, i, v);
    }
  }

  lemma RememberBlues(s: State, t: State, a: Addr, i: nat, v: Value)
    requires SameBlues(s, t)
    ensures SameBlues(s, Remember(t, a, i, v)) && Remember(t, a, i, v).phase == t.phase && Remember(t, a, i, v).sweephp == t.sweephp
  {
  }

  lemma ScanBlues(s: State, v: Value, room: Room)
    requires v.Ptr? ==> v.target in s.heap
    ensures SameBlues(s, DarkenChild(s, v, room))
  {
    if v.Ptr? && s.heap[v.target].color == White {
      assert SameBlues(s, SetColor(s, v.target, Gray));
      PushFrame(SetColor(s, v.target, Gray), v.target, room);
    }
  }

  lemma BlackenBlues(s: State)
    requires s.current.Some? && s.current.value in s.heap && s.heap[s.current.value].color == Gray
    ensures SameBlues(s, Blacken(s))
  {
  }

  /** A marking step that does not start the sweep. */
  lemma MarkStepBlues(s: State, room: Room, dropped: set<Addr>)
    requires Steppable(s) && MarkStep(s, room, dropped).phase == s.phase == Mark
    requires s.current.Some? ==> s.heap[s.current.value].color == Gray
    ensures SameBlues(s, MarkStep(s, room, dropped))
  {
    if s.current.Some? {
      var b := s.heap[s.current.value];
      if b.scan && s.index < |b.fields| {
        ScanBlues(s, b.fields[s.index], room);
      } else {
        BlackenBlues(s);
      }
    } else {
      assert MarkStep(s, room, dropped).heap == s.heap;
    }
  }

  // ---------------------------------------------------------------- the other events

  lemma InitSweepReclaims(s: State, keep: set<Addr>, dropped: set<Addr>)
    requires Layout(s) && BluesListed(s)
    ensures Reclaimed(InitSweep(s, dropped), keep)
  {
    forall a | a in s.heap ensures s.chunks[0].start <= a {
      assert Covered(s.chunks, a);
      var d :| d in s.chunks && d.start <= a < d.limit;
    }
  }

  lemma MarkStepReclaims(s: State, keep: set<Addr>, room: Room, dropped: set<Addr>)
    requires Layout(s) && MarkerState(s) && Steppable(s) && s.phase == Mark && Reclaimed(s, keep)
    ensures Reclaimed(MarkStep(s, room, dropped), keep)
  {
    var t := MarkStep(s, room, dropped);
    if t.phase == Mark {
      MarkStepBlues(s, room, dropped);
    } else {
      SweepBegins(s, room, dropped);
      InitSweepReclaims(s, keep, dropped);
    }
  }

  lemma SweepBegins(s: State, room: Room, dropped: set<Addr>)
    requires Steppable(s) && s.phase == Mark && MarkStep(s, room, dropped).phase != Mark
    ensures MarkStep(s, room, dropped) == InitSweep(s, dropped)
  {
  }

  /** A block that the sweeper meets and that need not be kept becomes free. */
  lemma SweepReclaims(s: State, keep: set<Addr>)
    requires Inv(s, keep) && s.phase == Sweep && Reclaimed(s, keep)
    ensures s.sweephp == s.chunk.limit || s.sweephp in s.heap
    ensures Reclaimed(SweepStep(s), keep)
  {
    if s.sweephp == s.chunk.limit {
      SweepToNextChunk(s, keep);
    } else {
      SweptBlock(s, keep, s.sweephp);
    }
  }

  lemma SweptBlock(s: State, keep: set<Addr>, h: Addr)
    requires Disjoint(s.heap) && s.phase == Sweep && Reclaimed(s, keep) && h == s.sweephp && h in s.heap && h != s.chunk.limit
    requires s.heap[h].color == Black ==> h in keep
    requires s.heap[h].color != Gray
    ensures Reclaimed(SweepStep(s), keep)
  {
    assert forall a :: a in s.heap && a < End(s.heap, h) ==> a <= h;
  }

  lemma SweepToNextChunk(s: State, keep: set<Addr>)
    requires Inv(s, keep) && s.phase == Sweep && Reclaimed(s, keep) && s.sweephp == s.chunk.limit
    ensures Reclaimed(SweepStep(s), keep)
  {
    var t := SweepStep(s);
    forall a | a in s.heap && Passed(t, a) ensures Passed(s, a) {
      if s.sweephp <= a { GapIsEmpty(s, s.chunk, a); }
    }
  }

  lemma AllocateReclaims(s: State, keep: set<Addr>, from: Addr, scan: bool, contents: seq<Value>, rest: Remnant)
    requires Layout(s) && Reclaimed(s, keep) && CanAllocate(s, keep, from, contents, rest)
    requires |contents| + 1 < |s.heap[from].fields| ==> rest.listed || Unswept(s, from, rest)
    ensures Reclaimed(AllocateFrom(s, from, scan, contents, rest), keep + {PlaceIn(s.heap, from, |contents|)})
  {
    AllocateEffect(s, keep, from, scan, contents, rest);
    var t := AllocateFrom(s, from, scan, contents, rest);
    assert t.heap.Keys == s.heap.Keys + {PlaceIn(s.heap, from, |contents|)};
  }

  lemma ExpandReclaims(s: State, keep: set<Addr>, c: Chunk)
    requires Layout(s) && Reclaimed(s, keep) && c.start < c.limit
    ensures Reclaimed(ExpandHeap(s, c), keep)
  {
  }

  lemma CoalesceReclaims(s: State, keep: set<Addr>, low: Addr, high: Addr)
    requires Reclaimed(s, keep) && Mergeable(s, low) && Mergeable(s, high) && low != high
    ensures Reclaimed(Merge(s, low, high), keep)
  {
  }

  /** Every event keeps it that nothing is left behind the sweeper. */
  lemma EventReclaims(s: State, keep: set<Addr>, e: Event)
    requires Inv(s, keep) && Reclaimed(s, keep) && Enabled(s, e)
    ensures Reclaimed(Apply(s, e), KeptAfter(s, keep, e))
  {
    match e
    case Modify(a, i, v, room) => ModifyBlues(s, a, i, v, room);
    case Initialize(a, i, v) =>
    case Allocate(from, scan, contents, rest) =>
      forall v | v in contents && v.Ptr? ensures v.target in keep { ReachableKept(s, keep, v.target); }
      AllocateReclaims(s, keep, from, scan, contents, rest);
    case Expand(c) => ExpandReclaims(s, keep, c);
    case Mutate(_) =>
    case ClearRefTable =>
    case StartCycle(order, rooms) =>
      DarkenAllBlues(s.(phase := Mark, subphase := MarkRoots, markhp := None), order, rooms);
    case MarkOne(room, dropped) => MarkStepReclaims(s, keep, room, dropped);
    case SweepOne => SweepReclaims(s, keep);
    case Coalesce(low, high) => CoalesceReclaims(s, keep, low, high);
  }

  // ---------------------------------------------------------------- runs

  /** The blocks allocated in a run. */
  ghost function NewBlocks(s: State, es: seq<Event>): set<Addr>
    decreases |es|
  {
    if es == [] || !Enabled(s, es[0]) then {}
    else (if es[0].Allocate? then {PlaceIn(s.heap, es[0].from, |es[0].contents|)} else {}) + NewBlocks(Apply(s, es[0]), es[1..])
  }

  ghost predicate NoCycleStarts(es: seq<Event>) {
    forall e :: e in es ==> !e.StartCycle?
  }

  lemma {:induction false} RunReclaims(s: State, keep: set<Addr>, es: seq<Event>, t: State) returns (last: set<Addr>)
    requires Inv(s, keep) && Reclaimed(s, keep) && Run(s, es, t)
    ensures Inv(t, last) && Reclaimed(t, last)
    ensures NoCycleStarts(es) ==> last == keep + NewBlocks(s, es)
    decreases |es|
  {
    if es == [] {
      last := keep;
    } else {
      EventKeeps(s, keep, es[0]);
      EventReclaims(s, keep, es[0]);
      last := RunReclaims(Apply(s, es[0]), KeptAfter(s, keep, es[0]), es[1..], t);
      if NoCycleStarts(es) { KeptWithoutStart(s, keep, es); }
    }
  }

  lemma KeptWithoutStart(s: State, keep: set<Addr>, es: seq<Event>)
    requires es != [] && Enabled(s, es[0]) && NoCycleStarts(es)
    ensures NoCycleStarts(es[1..])
    ensures KeptAfter(s, keep, es[0]) + NewBlocks(Apply(s, es[0]), es[1..]) == keep + NewBlocks(s, es)
  {
    assert es[0] in es;
    assert forall e :: e in es[1..] ==> e in es;
  }

  /** The heap at the beginning: its blocks are the free list. */
  ghost predicate AllFree(s: State) {
    Initial(s) && forall a :: a in s.heap && s.heap[a].fields != [] ==> a in s.free
  }

  /** A cycle reclaims: take any run, the start of a cycle in it, and any continuation within that cycle.
      Every block with fields that the sweeper has passed was reachable when the cycle started, or has been
      allocated since, or is free. */
  lemma CycleReclaims(s: State, before: seq<Event>, b: State, order: seq<Addr>, rooms: seq<Room>, during: seq<Event>, t: State)
    requires AllFree(s) && Run(s, before, b) && Enabled(b, StartCycle(order, rooms))
    requires Run(Apply(b, StartCycle(order, rooms)), during, t) && NoCycleStarts(during)
    ensures forall a :: a in t.heap && t.heap[a].fields != [] && Passed(t, a) ==>
              Reachable(b, a) || a in NewBlocks(Apply(b, StartCycle(order, rooms)), during) || a in t.free
  {
    assert Inv(s, {}) && Reclaimed(s, {});
    var keep := RunReclaims(s, {}, before, b);
    var c := Apply(b, StartCycle(order, rooms));
    EventKeeps(b, keep, StartCycle(order, rooms));
    EventReclaims(b, keep, StartCycle(order, rooms));
    var last := RunReclaims(c, Live(b), during, t);
  }

  // ---------------------------------------------------------------- sweeping alone

  /** Where only the sweeper has run from `s` to `t`: what lies ahead is untouched; behind, blocks that were
      white with fields are blue and free, black ones are white, free ones still free. */
  ghost predicate SweptFrom(s: State, t: State) {
    && t.heap.Keys == s.heap.Keys && s.free <= t.free && t.chunks == s.chunks && (t.phase == Idle || s.sweephp <= t.sweephp)
    && forall a {:trigger SweptAt(s, t, a)} :: a in s.heap ==> SweptAt(s, t, a)
  }

  ghost predicate SweptAt(s: State, t: State, a: Addr)
    requires a in s.heap && a in t.heap
  {
    if s.sweephp <= a && Passed(t, a) then
      match s.heap[a].color
      case White => if s.heap[a].fields == [] then t.heap[a] == s.heap[a]
                    else t.heap[a] == Block(Blue, false, Blank(|s.heap[a].fields|)) && a in t.free
      case Blue => t.heap[a] == s.heap[a]
      case _ => t.heap[a] == s.heap[a].(color := White)
    else t.heap[a] == s.heap[a]
  }

  lemma SweptFromStart(s: State)
    requires s.phase == Sweep
    ensures SweptFrom(s, s)
  {
    forall a | a in s.heap ensures SweptAt(s, s, a) { }
  }

  lemma SweptFurther(s: State, t: State, keep: set<Addr>)
    requires SweptFrom(s, t) && Inv(t, keep) && t.phase == Sweep
    ensures t.sweephp == t.chunk.limit || t.sweephp in t.heap
    ensures SweptFrom(s, SweepStep(t))
  {
    if t.sweephp == t.chunk.limit {
      ChunkDone(s, t, keep);
    } else {
      BlockSwept(s, t, t.sweephp);
    }
  }

  lemma ChunkDone(s: State, t: State, keep: set<Addr>)
    requires SweptFrom(s, t) && Inv(t, keep) && t.phase == Sweep && t.sweephp == t.chunk.limit
    ensures SweptFrom(s, SweepStep(t))
  {
    var u, h := SweepStep(t), t.sweephp;
    forall a | a in s.heap ensures SweptAt(s, u, a) {
      assert SweptAt(s, t, a);
      if h <= a { GapIsEmpty(t, t.chunk, a); }
    }
  }

  lemma BlockSwept(s: State, t: State, h: Addr)
    requires SweptFrom(s, t) && Disjoint(t.heap) && t.phase == Sweep && h == t.sweephp && h in t.heap && h != t.chunk.limit
    ensures SweptFrom(s, SweepStep(t))
  {
    var u := SweepStep(t);
    assert forall a :: a in t.heap && a < End(t.heap, h) ==> a <= h;
    forall a | a in s.heap ensures SweptAt(s, u, a) { assert SweptAt(s, t, a); }
  }

  lemma SweptWhites(s: State, t: State)
    requires SweptFrom(s, t)
    ensures forall a :: a in s.heap && s.heap[a].color == White && s.heap[a].fields != [] && s.sweephp <= a ==>
              Passed(t, a) ==> a in t.heap && a in t.free && t.heap[a].color == Blue
  {
    forall a | a in s.heap ensures SweptAt(s, t, a) { }
  }
}
