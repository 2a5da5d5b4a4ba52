// Every event of a run keeps the collector's invariant; hence the safety of
// incremental marking with a snapshot-at-beginning write barrier.

module CycleSafety {
  import opened Basics
  import opened MajorHeap
  import opened Marking
  import opened Cycles

  /** Whatever is reachable from the roots is kept. */
  lemma {:induction false} PathKept(s: State, keep: set<Addr>, p: seq<Addr>, i: nat)
    requires Closed(s, keep) && Path(s, p) && i < |p|
    ensures p[i] in keep
  {
    if i > 0 {
      PathKept(s, keep, p, i - 1);
      assert Edge(s.heap, p[i - 1], p[i - 1 + 1]);
      assert KeptFields(s.heap[p[i - 1]], keep);
    }
  }

  lemma ReachableKept(s: State, keep: set<Addr>, a: Addr)
    requires Closed(s, keep) && Reachable(s, a)
    ensures a in keep
  {
    var p :| Path(s, p) && p[|p| - 1] == a;
    PathKept(s, keep, p, |p| - 1);
  }

  // ---------------------------------------------------------------- writes

  /** A write to a kept slot, with the slot remembered when it receives a young pointer. */
  function Stored(s: State, a: Addr, i: nat, v: Value, r: set<(Addr, nat)>): State
    requires a in s.heap && i < |s.heap[a].fields|
  {
    Write(s, a, i, v).(refTable := r)
  }

  lemma StoredCommon(s: State, keep: set<Addr>, a: Addr, i: nat, v: Value, r: set<(Addr, nat)>)
    requires Common(s, keep) && a in s.heap && i < |s.heap[a].fields|
    requires (v.Ptr? ==> v.target in keep) && s.refTable <= r && (v.Young? ==> (a, i) in r)
    ensures Common(Stored(s, a, i, v, r), keep)
  {
    var t := Stored(s, a, i, v, r);
    assert forall x :: x in s.heap ==> End(t.heap, x) == End(s.heap, x);
    forall c, x | c in t.chunks && x in t.heap && c.start <= x < c.limit ensures Follows(t.heap, c, x) {
      assert Follows(s.heap, c, x);
    }
    forall x | x in keep ensures t.heap[x].color != Blue && |t.heap[x].fields| > 0 && KeptFields(t.heap[x], keep) {
      assert KeptFields(s.heap[x], keep);
    }
  }

  /** Same blocks with the same sizes and colours: the marker and the sweeper see no difference. */
  ghost predicate SameFrame(h: map<Addr, Block>, k: map<Addr, Block>) {
    h.Keys == k.Keys && forall x :: x in h ==> |k[x].fields| == |h[x].fields| && k[x].color == h[x].color
  }

  lemma FrameKeepsMarker(s: State, t: State)
    requires MarkerState(s) && SameFrame(s.heap, t.heap)
    requires t == s.(heap := t.heap, refTable := t.refTable)
    ensures MarkerState(t)
  {
    assert forall x :: x in s.heap ==> End(t.heap, x) == End(s.heap, x);
  }

  /** Overwriting a pointer leaves its target as the one block still to be darkened. */
  lemma StoredMark(s: State, keep: set<Addr>, a: Addr, i: nat, v: Value, r: set<(Addr, nat)>, pending: set<Addr>)
    requires MarkInv(s, keep, {}) && a in s.heap && i < |s.heap[a].fields|
    requires (v.Ptr? ==> v.target in keep) && s.refTable <= r && (v.Young? ==> (a, i) in r)
    requires s.heap[a].fields[i].Ptr? ==> s.heap[a].fields[i].target in pending
    ensures MarkInv(Stored(s, a, i, v, r), keep, pending)
  {
    var t := Stored(s, a, i, v, r);
    StoredCommon(s, keep, a, i, v, r);
    FrameKeepsMarker(s, t);
    StoredProtected(s, keep, a, i, v, r, pending);
  }

  lemma StoredProtected(s: State, keep: set<Addr>, a: Addr, i: nat, v: Value, r: set<(Addr, nat)>, pending: set<Addr>)
    requires Protected(s, keep, {}) && a in s.heap && i < |s.heap[a].fields|
    requires s.heap[a].fields[i].Ptr? ==> s.heap[a].fields[i].target in pending
    ensures Protected(Stored(s, a, i, v, r), keep, pending)
  {
    var t := Stored(s, a, i, v, r);
    forall x: set<Addr> | x != {} && x <= Whites(t, keep) && x * pending == {} ensures Entered(t, keep, x) {
      assert x <= Whites(s, keep);
      assert x * {} == {};
      assert Entered(s, keep, x);
      var p, j :| EntersAt(s, keep, x, p, j);
      assert forall q :: q in x && q in pending ==> q in x * pending;
      assert EntersAt(t, keep, x, p, j);
    }
  }

  lemma StoredInv(s: State, keep: set<Addr>, a: Addr, i: nat, v: Value, r: set<(Addr, nat)>)
    requires Inv(s, keep) && a in s.heap && i < |s.heap[a].fields|
    requires (v.Ptr? ==> v.target in keep) && s.refTable <= r && (v.Young? ==> (a, i) in r)
    requires s.phase == Mark ==> !s.heap[a].fields[i].Ptr?
    ensures Inv(Stored(s, a, i, v, r), keep)
  {
    var t := Stored(s, a, i, v, r);
    StoredCommon(s, keep, a, i, v, r);
    if s.phase == Mark {
      StoredMark(s, keep, a, i, v, r, {});
    } else if s.phase == Sweep {
      FrameKeepsSweep(s, t, keep);
    }
  }

  lemma FrameKeepsSweep(s: State, t: State, keep: set<Addr>)
    requires SweepState(s, keep) && SameFrame(s.heap, t.heap)
    requires t == s.(heap := t.heap, refTable := t.refTable)
    ensures SweepState(t, keep)
  {
    assert forall x :: x in s.heap ==> End(t.heap, x) == End(s.heap, x);
  }

  /** The write barrier: caml_modify keeps the invariant in every phase. */
  lemma ModifyKeeps(s: State, keep: set<Addr>, a: Addr, i: nat, v: Value, room: Room)
    requires Inv(s, keep) && a in keep && i < |s.heap[a].fields| && s.heap[a].scan
    requires v.Ptr? ==> v.target in keep
    ensures s.heap[a].fields[i].Ptr? ==> s.heap[a].fields[i].target in s.heap
    ensures Inv(ModifySlot(s, a, i, v, room), keep)
  {
    var prior, r := s.heap[a].fields[i], if v.Young? then s.refTable + {(a, i)} else s.refTable;
    assert KeptFields(s.heap[a], keep);
    ModifyIsStore(s, a, i, v, room);
    if prior.Young? {
      StoredInv(s, keep, a, i, v, s.refTable);
    } else if prior.Ptr? && s.phase == Mark {
      BarrierKeeps(s, keep, a, i, v, r, room);
    } else {
      StoredInv(s, keep, a, i, v, r);
    }
  }

  /** While marking, darkening the overwritten pointer settles the one target that lost a path. */
  lemma BarrierKeeps(s: State, keep: set<Addr>, a: Addr, i: nat, v: Value, r: set<(Addr, nat)>, room: Room)
    requires Inv(s, keep) && s.phase == Mark && a in keep && i < |s.heap[a].fields|
    requires (v.Ptr? ==> v.target in keep) && s.refTable <= r && (v.Young? ==> (a, i) in r)
    requires s.heap[a].fields[i].Ptr? && s.heap[a].fields[i].target in keep
    ensures Inv(Darken(Stored(s, a, i, v, r), s.heap[a].fields[i].target, room), keep)
  {
    var b, t := s.heap[a].fields[i].target, Stored(s, a, i, v, r);
    StoredMark(s, keep, a, i, v, r, {b});
    DarkenKeeps(t, keep, {b}, b, room);
    assert {b} - {b} == {};
    assert Darken(t, b, room).phase == Mark;
  }

  /** caml_modify in terms of a remembering store, followed by caml_darken while marking. */
  lemma ModifyIsStore(s: State, a: Addr, i: nat, v: Value, room: Room)
    requires a in s.heap && i < |s.heap[a].fields|
    requires s.heap[a].fields[i].Ptr? ==> s.heap[a].fields[i].target in s.heap
    ensures var prior, r := s.heap[a].fields[i], if v.Young? then s.refTable + {(a, i)} else s.refTable;
            ModifySlot(s, a, i, v, room)
              == if prior.Young? then Stored(s, a, i, v, s.refTable)
                 else if prior.Ptr? && s.phase == Mark then Darken(Stored(s, a, i, v, r), prior.target, room)
                 else Stored(s, a, i, v, r)
  {
    var prior := s.heap[a].fields[i];
    if prior.Ptr? { RememberThenDarken(Write(s, a, i, v), a, i, v, prior.target, room); }
  }

  lemma RememberThenDarken(t: State, a: Addr, i: nat, v: Value, b: Addr, room: Room)
    requires b in t.heap
    ensures Remember(Darken(t, b, room), a, i, v) == Darken(Remember(t, a, i, v), b, room)
    ensures Darken(t, b, room).phase == t.phase
  {
  }

  lemma YoungSlotIsRemembered(s: State, keep: set<Addr>, a: Addr, i: nat)
    requires Common(s, keep) && a in keep && a in s.heap && i < |s.heap[a].fields| && s.heap[a].scan
    ensures s.heap[a].fields[i].Young? ==> (a, i) in s.refTable
  {
  }

  lemma ModifyEffect(s: State, a: Addr, i: nat, v: Value, room: Room)
    requires a in s.heap && i < |s.heap[a].fields|
    requires s.heap[a].fields[i].Ptr? ==> s.heap[a].fields[i].target in s.heap
    ensures var t, prior := ModifySlot(s, a, i, v, room), s.heap[a].fields[i];
            && t.refTable == (if v.Young? && !prior.Young? then s.refTable + {(a, i)} else s.refTable)
            && (prior.Ptr? && s.phase == Mark ==> prior.target in t.heap && t.heap[prior.target].color != White)
  {
  }

  /** A slot that holds a young pointer is in the table already, so caml_modify may return early; after
      it, a slot that receives a young pointer is in the table, and while marking the block that was
      pointed to is no longer white. */
  lemma ModifyRemembers(s: State, keep: set<Addr>, a: Addr, i: nat, v: Value, room: Room)
    requires Inv(s, keep) && a in keep && a in s.heap && i < |s.heap[a].fields| && s.heap[a].scan
    requires s.heap[a].fields[i].Ptr? ==> s.heap[a].fields[i].target in s.heap
    ensures s.heap[a].fields[i].Young? ==> (a, i) in s.refTable
    ensures var t, prior := ModifySlot(s, a, i, v, room), s.heap[a].fields[i];
            && (v.Young? ==> (a, i) in t.refTable) && s.refTable <= t.refTable <= s.refTable + {(a, i)}
            && (prior.Ptr? && s.phase == Mark ==> prior.target in t.heap && t.heap[prior.target].color != White)
  {
    YoungSlotIsRemembered(s, keep, a, i);
    ModifyEffect(s, a, i, v, room);
  }

  lemma InitializeKeeps(s: State, keep: set<Addr>, a: Addr, i: nat, v: Value)
    requires Inv(s, keep) && a in s.heap && i < |s.heap[a].fields| && !s.heap[a].fields[i].Ptr?
    requires v.Ptr? ==> v.target in keep
    ensures Inv(Remember(Write(s, a, i, v), a, i, v), keep)
  {
    StoredInv(s, keep, a, i, v, if v.Young? then s.refTable + {(a, i)} else s.refTable);
  }

  // ---------------------------------------------------------------- allocation

  /** Extents after carving: the block at `hp` ends where the free block at `from` ended. */
  ghost predicate Carved(h: map<Addr, Block>, k: map<Addr, Block>, from: Addr, hp: Addr) {
    && from in h && from <= hp < End(h, from)
    && k.Keys == h.Keys + {hp} && End(k, hp) == End(h, from)
    && (hp != from ==> End(k, from) == hp)
    && forall x :: x in h && x != hp && x != from ==> End(k, x) == End(h, x)
  }

  lemma CarveIsCarved(h: map<Addr, Block>, from: Addr, b: Block, rest: Color)
    requires from in h && 0 < |b.fields| <= |h[from].fields|
    requires Disjoint(h)
    ensures var k, hp := Carve(h, from, b, rest), PlaceIn(h, from, |b.fields|);
            && Carved(h, k, from, hp) && k[hp] == b && (hp == from || hp !in h)
            && forall x :: x in h && x != from ==> x != hp && k[x] == h[x]
  {
  }

  lemma CarvedDisjoint(h: map<Addr, Block>, k: map<Addr, Block>, from: Addr, hp: Addr)
    requires Disjoint(h) && Carved(h, k, from, hp)
    ensures Disjoint(k)
  {
  }

  lemma CarvedTiled(h: map<Addr, Block>, k: map<Addr, Block>, chunks: seq<Chunk>, from: Addr, hp: Addr)
    requires Sorted(chunks) && Tiled(h, chunks) && Carved(h, k, from, hp)
    ensures Tiled(k, chunks)
  {
    assert Covered(chunks, from);
    var d :| d in chunks && d.start <= from < d.limit;
    assert Follows(h, d, from);
    forall c, x | c in chunks && x in k && c.start <= x < c.limit ensures Follows(k, c, x) {
      if x in h { assert Follows(h, c, x); }
      if x == hp || x == from { assert c == d; }
    }
    forall x | x in k ensures Covered(chunks, x) {
      if x in h { assert Covered(chunks, x); }
    }
  }

  /** What allocation needs: a free block that is large enough and values the mutator holds. */
  ghost predicate CanAllocate(s: State, keep: set<Addr>, from: Addr, contents: seq<Value>, rest: Remnant) {
    && from in s.free && from in s.heap && 0 < |contents| <= |s.heap[from].fields|
    && (forall v :: v in contents && v.Ptr? ==> v.target in keep)
    && (rest.color == White || rest.color == Blue)
  }

  /** The effect of an allocation: block `b` appears at `hp`, carved from the free block `from`. */
  ghost predicate Allocated(s: State, t: State, from: Addr, hp: Addr, b: Block) {
    && from in s.free && from in s.heap && |b.fields| > 0
    && Carved(s.heap, t.heap, from, hp) && t.heap[hp] == b
    && (forall x :: x in s.heap && x != from ==> x != hp && t.heap[x] == s.heap[x])
    && (hp != from ==> t.heap[from].color == White || t.heap[from].color == Blue)
    && t == s.(heap := t.heap, free := t.free, roots := s.roots + {hp}, refTable := t.refTable)
    && t.free <= s.free && hp !in t.free && b.color == AllocationColor(s, hp)
    && s.refTable <= t.refTable
    && forall i :: 0 <= i < |b.fields| && b.fields[i].Young? ==> (hp, i) in t.refTable
  }

  lemma AllocateEffect(s: State, keep: set<Addr>, from: Addr, scan: bool, contents: seq<Value>, rest: Remnant)
    requires Layout(s) && CanAllocate(s, keep, from, contents, rest)
    ensures var hp := PlaceIn(s.heap, from, |contents|);
            Allocated(s, AllocateFrom(s, from, scan, contents, rest), from, hp, Block(AllocationColor(s, hp), scan, contents))
  {
    var hp := PlaceIn(s.heap, from, |contents|);
    CarveIsCarved(s.heap, from, Block(AllocationColor(s, hp), scan, contents), rest.color);
  }

  lemma AllocatedCommon(s: State, t: State, keep: set<Addr>, from: Addr, hp: Addr, b: Block)
    requires Common(s, keep) && Allocated(s, t, from, hp, b)
    requires forall v :: v in b.fields && v.Ptr? ==> v.target in keep
    ensures Common(t, keep + {hp}) && from !in keep && hp !in keep
  {
    var keep' := keep + {hp};
    assert from !in keep;
    CarvedDisjoint(s.heap, t.heap, from, hp);
    CarvedTiled(s.heap, t.heap, s.chunks, from, hp);
    forall x | x in keep' ensures t.heap[x].color != Blue && |t.heap[x].fields| > 0 && KeptFields(t.heap[x], keep') {
      if x in keep { assert KeptFields(s.heap[x], keep); }
      else { assert b.color != Blue; }
    }
  }

  lemma AllocatedBoundary(s: State, t: State, from: Addr, hp: Addr, b: Block, at: Addr)
    requires Allocated(s, t, from, hp, b) && Boundary(s.heap, at)
    ensures Boundary(t.heap, at)
  {
  }

  /** The marker's registers never refer to a free block, so they survive an allocation. */
  lemma AllocatedMarker(s: State, t: State, keep: set<Addr>, from: Addr, hp: Addr, b: Block)
    requires s.phase == Mark && MarkerState(s) && from !in keep && Allocated(s, t, from, hp, b)
    requires forall a :: a in s.heap && (s.heap[a].color == Gray || s.heap[a].color == Black) ==> a in keep
    requires s.markhp.Some? ==> Boundary(t.heap, s.markhp.value)
    ensures MarkerState(t)
  {
  }

  lemma AllocatedMark(s: State, t: State, keep: set<Addr>, from: Addr, hp: Addr, b: Block)
    requires MarkInv(s, keep, {}) && s.phase == Mark && Allocated(s, t, from, hp, b)
    requires forall v :: v in b.fields && v.Ptr? ==> v.target in keep
    ensures MarkInv(t, keep + {hp}, {})
  {
    AllocatedCommon(s, t, keep, from, hp, b);
    if s.markhp.Some? { AllocatedBoundary(s, t, from, hp, b, s.markhp.value); }
    AllocatedMarker(s, t, keep, from, hp, b);
    AllocatedProtected(s, t, keep, from, hp, b);
  }

  /** A block allocated black is in no white set, so it leaves every cut as it was. */
  lemma AllocatedProtected(s: State, t: State, keep: set<Addr>, from: Addr, hp: Addr, b: Block)
    requires Protected(s, keep, {}) && s.phase == Mark && Allocated(s, t, from, hp, b)
    requires from !in keep && hp !in keep && keep <= s.heap.Keys
    ensures Protected(t, keep + {hp}, {})
  {
    assert Whites(t, keep + {hp}) == Whites(s, keep);
    forall x: set<Addr> | x != {} && x <= Whites(t, keep + {hp}) ensures Entered(t, keep + {hp}, x) {
      assert x * {} == {};
      assert Entered(s, keep, x);
      var p, i :| EntersAt(s, keep, x, p, i);
      assert EntersAt(t, keep + {hp}, x, p, i);
    }
  }

  lemma AllocatedSweep(s: State, t: State, keep: set<Addr>, from: Addr, hp: Addr, b: Block)
    requires Common(s, keep) && SweepState(s, keep) && s.phase == Sweep && from !in keep && Allocated(s, t, from, hp, b)
    ensures SweepState(t, keep + {hp})
  {
    AllocatedBoundary(s, t, from, hp, b, s.sweephp);
    forall a | a in t.heap && s.sweephp <= a
      ensures t.heap[a].color != Gray && (t.heap[a].color == Black <==> a in keep + {hp})
    {
      if a != hp && a != from { assert a in s.heap; }
    }
  }

  lemma AllocateKeeps(s: State, keep: set<Addr>, from: Addr, scan: bool, contents: seq<Value>, rest: Remnant)
    requires Inv(s, keep) && CanAllocate(s, keep, from, contents, rest)
    ensures Inv(AllocateFrom(s, from, scan, contents, rest), keep + {PlaceIn(s.heap, from, |contents|)})
  {
    var t, hp := AllocateFrom(s, from, scan, contents, rest), PlaceIn(s.heap, from, |contents|);
    var b := Block(AllocationColor(s, hp), scan, contents);
    AllocateEffect(s, keep, from, scan, contents, rest);
    AllocatedCommon(s, t, keep, from, hp, b);
    match s.phase
    case Mark => AllocatedMark(s, t, keep, from, hp, b);
    case Sweep => AllocatedSweep(s, t, keep, from, hp, b);
    case Idle =>
  }

  // ---------------------------------------------------------------- heap extension

  lemma {:induction false} InsertChunkMembers(chunks: seq<Chunk>, c: Chunk)
    ensures |InsertChunk(chunks, c)| == |chunks| + 1
    ensures forall d :: d in InsertChunk(chunks, c) <==> d in chunks || d == c
  {
    if chunks != [] {
      InsertChunkMembers(chunks[1..], c);
      assert forall d :: d in chunks <==> d == chunks[0] || d in chunks[1..];
    }
  }

  lemma {:induction false} InsertChunkSorted(chunks: seq<Chunk>, c: Chunk)
    requires Sorted(chunks) && c.start < c.limit
    requires forall d :: d in chunks ==> d.limit <= c.start || c.limit <= d.start
    ensures Sorted(InsertChunk(chunks, c)) && |InsertChunk(chunks, c)| == |chunks| + 1
    ensures forall d :: d in InsertChunk(chunks, c) <==> d in chunks || d == c
  {
    InsertChunkMembers(chunks, c);
    if chunks == [] {
    } else if chunks[0].start <= c.start {
      SortedTail(chunks);
      InsertChunkSorted(chunks[1..], c);
      SortedCons(chunks[0], InsertChunk(chunks[1..], c));
    } else {
      SortedTail(chunks);
      SortedCons(c, chunks);
    }
  }

  lemma SortedTail(chunks: seq<Chunk>)
    requires Sorted(chunks) && chunks != []
    ensures Sorted(chunks[1..]) && chunks[0] in chunks && chunks[0].start < chunks[0].limit
    ensures forall d :: d in chunks[1..] ==> d in chunks && chunks[0].limit <= d.start
  {
  }

  lemma SortedCons(c: Chunk, chunks: seq<Chunk>)
    requires Sorted(chunks) && c.start < c.limit && forall d :: d in chunks ==> c.limit <= d.start
    ensures Sorted([c] + chunks)
  {
  }

  /** The new chunk's extent contains no block yet. */
  lemma ChunkIsVacant(s: State, c: Chunk, x: Addr)
    requires Layout(s) && c.start < c.limit && x in s.heap
    requires forall d :: d in s.chunks ==> d.limit <= c.start || c.limit <= d.start
    ensures End(s.heap, x) <= c.start || c.limit <= x
  {
    assert Covered(s.chunks, x);
    var d :| d in s.chunks && d.start <= x < d.limit;
    assert Follows(s.heap, d, x);
  }

  ghost predicate Expanded(s: State, t: State, c: Chunk) {
    && c.start < c.limit && c.start !in s.heap
    && (forall x :: x in s.heap ==> End(s.heap, x) <= c.start || c.limit <= x)
    && t.heap.Keys == s.heap.Keys + {c.start} && t.heap[c.start].color == Blue && End(t.heap, c.start) == c.limit
    && (forall x :: x in s.heap ==> t.heap[x] == s.heap[x])
    && Sorted(t.chunks) && (forall d :: d in t.chunks <==> d in s.chunks || d == c)
    && t == s.(heap := t.heap, chunks := t.chunks, free := s.free + {c.start})
  }

  lemma ExpandEffect(s: State, c: Chunk)
    requires Layout(s) && c.start < c.limit
    requires forall d :: d in s.chunks ==> d.limit <= c.start || c.limit <= d.start
    ensures Expanded(s, ExpandHeap(s, c), c)
  {
    InsertChunkSorted(s.chunks, c);
    forall x | x in s.heap ensures End(s.heap, x) <= c.start || c.limit <= x {
      ChunkIsVacant(s, c, x);
    }
  }

  lemma ExpandedTiled(s: State, t: State, c: Chunk)
    requires Layout(s) && Expanded(s, t, c)
    ensures Tiled(t.heap, t.chunks)
  {
    assert c in t.chunks;
    forall d, x | d in t.chunks && x in t.heap && d.start <= x < d.limit ensures Follows(t.heap, d, x) {
      if d in s.chunks && x in s.heap { assert Follows(s.heap, d, x); }
      if x in s.heap { ChunkHolds(s, x, d, t.chunks); }
      if d in s.chunks { ChunkHolds(s, d.start, d, t.chunks); }
    }
    forall x | x in t.heap ensures Covered(t.chunks, x) {
      if x in s.heap {
        assert Covered(s.chunks, x);
        var d :| d in s.chunks && d.start <= x < d.limit;
        assert d in t.chunks;
      }
    }
  }

  /** A block that lies in chunk `d` of an extended chunk list already lay in `d`. */
  lemma ChunkHolds(s: State, x: Addr, d: Chunk, chunks: seq<Chunk>)
    requires Layout(s) && x in s.heap && d in chunks && Sorted(chunks) && d.start <= x < d.limit
    requires forall e :: e in s.chunks ==> e in chunks
    ensures d in s.chunks
  {
    assert Covered(s.chunks, x);
    var e :| e in s.chunks && e.start <= x < e.limit;
    assert e in chunks;
  }

  lemma ExpandedCommon(s: State, t: State, keep: set<Addr>, c: Chunk)
    requires Common(s, keep) && Expanded(s, t, c)
    ensures Common(t, keep)
  {
    ExpandedTiled(s, t, c);
    forall x | x in keep ensures KeptFields(t.heap[x], keep) { assert KeptFields(s.heap[x], keep); }
  }

  lemma ExpandedBoundary(s: State, t: State, c: Chunk, d: Chunk, at: Addr)
    requires Layout(s) && Expanded(s, t, c) && d in s.chunks && d.start <= at <= d.limit && Boundary(s.heap, at)
    ensures Boundary(t.heap, at)
  {
    assert d in t.chunks && c in t.chunks;
    assert d.start in s.heap;
  }

  lemma ExpandKeeps(s: State, keep: set<Addr>, c: Chunk)
    requires Inv(s, keep) && c.start < c.limit
    requires forall d :: d in s.chunks ==> d.limit <= c.start || c.limit <= d.start
    ensures Inv(ExpandHeap(s, c), keep)
  {
    var t := ExpandHeap(s, c);
    ExpandEffect(s, c);
    ExpandedCommon(s, t, keep, c);
    match s.phase
    case Mark =>
      if s.markhp.Some? { ExpandedBoundary(s, t, c, s.chunk, s.markhp.value); }
      ExpandedMark(s, t, keep, c);
    case Sweep => ExpandedBoundary(s, t, c, s.chunk, s.sweephp);
    case Idle =>
  }

  lemma ExpandedMark(s: State, t: State, keep: set<Addr>, c: Chunk)
    requires MarkInv(s, keep, {}) && Expanded(s, t, c) && Common(t, keep)
    requires s.markhp.Some? ==> Boundary(t.heap, s.markhp.value)
    ensures MarkInv(t, keep, {})
  {
    assert Whites(t, keep) == Whites(s, keep);
    forall x: set<Addr> | x != {} && x <= Whites(t, keep) ensures Entered(t, keep, x) {
      assert x * {} == {};
      assert Entered(s, keep, x);
      var p, i :| EntersAt(s, keep, x, p, i);
      assert EntersAt(t, keep, x, p, i);
    }
  }
}
