// One step of the incremental marker (major_gc.c), and what each step keeps.

module Marking {
  import opened Basics
  import opened MajorHeap

  /** Outcome of realloc_gray_vals when the stack is full: it grows, or half or all of it is
      dropped and the heap becomes impure. */
  datatype Room = Grow | KeepHalf | DropAll

  function SetColor(s: State, a: Addr, c: Color): State
    requires a in s.heap
  {
    s.(heap := s.heap[a := s.heap[a].(color := c)])
  }

  function Push(s: State, a: Addr, room: Room): State {
    var q := s.gray + [a];
    if |q| < s.graySize then s.(gray := q)
    else match room
      case Grow => s.(gray := q, graySize := 2 * s.graySize)
      case KeepHalf => s.(gray := if s.graySize / 2 <= |q| then q[..s.graySize / 2] else q, pure := false)
      case DropAll => s.(gray := [], pure := false)
  }

  /** caml_darken on a block of the major heap. */
  function Darken(s: State, a: Addr, room: Room): State
    requires a in s.heap
  {
    if s.heap[a].color != White then s
    else if s.heap[a].scan then Push(SetColor(s, a, Gray), a, room)
    else SetColor(s, a, Black)
  }

  /** mark_slice_darken: the child of a scanned field turns gray, whatever its tag. */
  function DarkenChild(s: State, v: Value, room: Room): State
    requires v.Ptr? ==> v.target in s.heap
  {
    if v.Ptr? && s.heap[v.target].color == White
    then Push(SetColor(s, v.target, Gray), v.target, room)
    else s
  }

  // The branches of the loop of mark_slice, in its order.

  function Pop(s: State): State
    requires s.gray != []
  {
    s.(current := Some(s.gray[|s.gray| - 1]), gray := s.gray[..|s.gray| - 1])
  }

  function ScanField(s: State, room: Room): State
    requires s.current.Some? && s.current.value in s.heap
    requires s.index < |s.heap[s.current.value].fields|
    requires var v := s.heap[s.current.value].fields[s.index]; v.Ptr? ==> v.target in s.heap
  {
    DarkenChild(s, s.heap[s.current.value].fields[s.index], room).(index := s.index + 1)
  }

  function Blacken(s: State): State
    requires s.current.Some? && s.current.value in s.heap
  {
    SetColor(s, s.current.value, Black).(current := None, index := 0)
  }

  function AdvanceHp(s: State): State
    requires s.markhp.Some? && (s.markhp.value == s.chunk.limit || s.markhp.value in s.heap)
  {
    var h := s.markhp.value;
    if h == s.chunk.limit then
      match ChunkAfter(s.chunks, s.chunk.start)
      case None => s.(markhp := None)
      case Some(c) => s.(markhp := Some(c.start), chunk := c)
    else
      s.(current := if s.heap[h].color == Gray then Some(h) else None, markhp := Some(End(s.heap, h)))
  }

  function Rescan(s: State): State
    requires s.chunks != []
  {
    s.(pure := true, chunk := s.chunks[0], markhp := Some(s.chunks[0].start))
  }

  function WhiteOnes(s: State, xs: set<Addr>): set<Addr> {
    set a | a in xs && a in s.heap && s.heap[a].color == White
  }

  /** init_sweep_phase; the white blocks of `dropped` are remnants the best-fit policy takes out of its
      free lists before sweeping. */
  function InitSweep(s: State, dropped: set<Addr>): State
    requires s.chunks != []
  {
    s.(phase := Sweep, chunk := s.chunks[0], sweephp := s.chunks[0].start, free := s.free - WhiteOnes(s, dropped))
  }

  function NextSubphase(s: State, dropped: set<Addr>): State
    requires s.chunks != []
  {
    match s.subphase
    case MarkRoots => s.(subphase := MarkMain)
    case MarkMain => s.(subphase := MarkFinal)
    case MarkFinal => InitSweep(s, dropped)
  }

  /** The marker's registers point where the loop of mark_slice dereferences them. */
  ghost predicate Steppable(s: State) {
    && s.chunks != []
    && (s.current.Some? ==> s.current.value in s.heap
                            && forall i :: 0 <= i < |s.heap[s.current.value].fields| ==>
                                 var v := s.heap[s.current.value].fields[i]; s.heap[s.current.value].scan && v.Ptr? ==> v.target in s.heap)
    && (s.markhp.Some? ==> s.markhp.value == s.chunk.limit || s.markhp.value in s.heap)
  }

  /** One step of the loop of mark_slice. */
  ghost function MarkStep(s: State, room: Room, dropped: set<Addr>): State
    requires Steppable(s)
  {
    if s.current.None? && s.gray != [] then Pop(s)
    else if s.current.Some? then
      var b := s.heap[s.current.value];
      if b.scan && s.index < |b.fields| then ScanField(s, room) else Blacken(s)
    else if s.markhp.Some? then AdvanceHp(s)
    else if !s.pure then Rescan(s)
    else NextSubphase(s, dropped)
  }

  // ---------------------------------------------------------------- what the steps keep

  /** Marking invariants make the loop's dereferences defined. */
  lemma InvSteppable(s: State, keep: set<Addr>)
    requires MarkInv(s, keep, {})
    ensures Steppable(s)
  {
  }

  /** The two heaps differ in colours only. */
  ghost predicate SameShape(h: map<Addr, Block>, k: map<Addr, Block>) {
    h.Keys == k.Keys && forall x :: x in h ==> k[x].fields == h[x].fields && k[x].scan == h[x].scan
  }

  lemma ShapeKeepsLayout(s: State, t: State)
    requires Layout(s) && SameShape(s.heap, t.heap) && t.chunks == s.chunks && t.free == s.free
    ensures Layout(t)
  {
    assert forall x :: x in s.heap ==> End(t.heap, x) == End(s.heap, x);
    forall c, a | c in t.chunks && a in t.heap && c.start <= a < c.limit ensures Follows(t.heap, c, a) {
      assert Follows(s.heap, c, a);
    }
  }

  lemma ShapeKeepsBoundary(h: map<Addr, Block>, k: map<Addr, Block>, at: Addr)
    requires SameShape(h, k) && Boundary(h, at)
    ensures Boundary(k, at)
  {
    assert forall x :: x in h ==> End(k, x) == End(h, x);
  }

  /** Recolouring a kept block keeps layout, closure and the remembered set. */
  lemma RecolorKeepsCommon(s: State, keep: set<Addr>, a: Addr, c: Color)
    requires Common(s, keep) && a in keep && c != Blue
    ensures Common(SetColor(s, a, c), keep)
  {
    var t := SetColor(s, a, c);
    ShapeKeepsLayout(s, t);
    forall x | x in keep ensures t.heap[x].color != Blue && |t.heap[x].fields| > 0 && KeptFields(t.heap[x], keep) {
      assert KeptFields(s.heap[x], keep);
    }
  }

  /** If nothing turned white and no unscanned field became scanned, protection is kept. */
  lemma ProtectionKept(s: State, t: State, keep: set<Addr>, pending: set<Addr>, settled: set<Addr>)
    requires Protected(s, keep, pending)
    requires Whites(t, keep) <= Whites(s, keep) && settled !! Whites(t, keep)
    requires forall x, p, i :: x <= Whites(t, keep) && EntersAt(s, keep, x, p, i) ==> EntersAt(t, keep, x, p, i)
    ensures Protected(t, keep, pending - settled)
  {
    forall x: set<Addr> | x != {} && x <= Whites(t, keep)
      ensures Entered(t, keep, x) || x * (pending - settled) != {}
    {
      assert x * (pending - settled) == x * pending;
    }
  }

  /** Turning a white block gray and pushing it keeps the marking invariant. */
  lemma GrayedKeeps(s: State, keep: set<Addr>, pending: set<Addr>, a: Addr, room: Room)
    requires MarkInv(s, keep, pending) && a in keep && s.heap[a].color == White
    ensures MarkInv(Push(SetColor(s, a, Gray), a, room), keep, pending - {a})
  {
    var t := SetColor(s, a, Gray);
    var u := Push(t, a, room);
    RecolorKeepsCommon(s, keep, a, Gray);
    GrayedMarker(s, a, room);
    ProtectionKept(s, t, keep, pending, {a});
    PushFrame(t, a, room);
    SameMarksProtection(t, u, keep, pending - {a});
  }

  lemma PushFrame(t: State, a: Addr, room: Room)
    ensures var u := Push(t, a, room); u == t.(gray := u.gray, graySize := u.graySize, pure := u.pure)
    ensures Push(t, a, room).graySize >= t.graySize
  {
  }

  /** Protection depends only on the heap and on the block being scanned. */
  lemma SameMarksProtection(t: State, u: State, keep: set<Addr>, pending: set<Addr>)
    requires Protected(t, keep, pending) && u.heap == t.heap && u.current == t.current && u.index == t.index
    ensures Protected(u, keep, pending)
  {
    assert Whites(u, keep) == Whites(t, keep);
    forall x: set<Addr> | x != {} && x <= Whites(u, keep) && x * pending == {} ensures Entered(u, keep, x) {
      assert Entered(t, keep, x);
      var p, i :| EntersAt(t, keep, x, p, i);
      assert EntersAt(u, keep, x, p, i);
    }
  }

  lemma GrayedMarker(s: State, a: Addr, room: Room)
    requires MarkerState(s) && |s.gray| < s.graySize && s.graySize >= 2
    requires a in s.heap && s.heap[a].color == White
    ensures var u := Push(SetColor(s, a, Gray), a, room); MarkerState(u) && |u.gray| < u.graySize
  {
    var t := SetColor(s, a, Gray);
    var u, q := Push(t, a, room), s.gray + [a];
    PushFrame(t, a, room);
    PushedStack(s, a, room);
    if s.markhp.Some? { ShapeKeepsBoundary(s.heap, u.heap, s.markhp.value); }
  }

  /** What is left of the stack after a push is a prefix of the full stack, and all of it when
      the heap stays pure. */
  lemma PushedStack(s: State, a: Addr, room: Room)
    requires Distinct(s.gray) && a !in s.gray && |s.gray| < s.graySize && s.graySize >= 2
    requires a in s.heap
    ensures var u := Push(SetColor(s, a, Gray), a, room);
            && Distinct(u.gray) && |u.gray| < u.graySize
            && (forall x :: x in u.gray ==> x in s.gray || x == a)
            && (u.pure ==> s.pure && forall x :: x in s.gray || x == a ==> x in u.gray)
  {
    var q := s.gray + [a];
    assert Distinct(q);
    assert q[|s.gray|] == a && forall i :: 0 <= i < |s.gray| ==> q[i] == s.gray[i];
  }

  /** Darkening directly to black is sound for a block without scanned fields. */
  lemma BlackenedNoScanKeeps(s: State, keep: set<Addr>, pending: set<Addr>, a: Addr)
    requires MarkInv(s, keep, pending) && a in keep && s.heap[a].color == White && !s.heap[a].scan
    ensures MarkInv(SetColor(s, a, Black), keep, pending - {a})
  {
    var u := SetColor(s, a, Black);
    RecolorKeepsCommon(s, keep, a, Black);
    if s.markhp.Some? { ShapeKeepsBoundary(s.heap, u.heap, s.markhp.value); }
    ProtectionKept(s, u, keep, pending, {a});
  }

  /** caml_darken on a kept block keeps the marking invariant and settles that block. */
  lemma DarkenKeeps(s: State, keep: set<Addr>, pending: set<Addr>, a: Addr, room: Room)
    requires MarkInv(s, keep, pending) && a in keep
    ensures MarkInv(Darken(s, a, room), keep, pending - {a})
    ensures Darken(s, a, room).heap[a].color != White
  {
    if s.heap[a].color != White {
      ProtectionKept(s, s, keep, pending, {a});
    } else if s.heap[a].scan {
      GrayedKeeps(s, keep, pending, a, room);
    } else {
      BlackenedNoScanKeeps(s, keep, pending, a);
    }
  }

  lemma PopKeeps(s: State, keep: set<Addr>)
    requires MarkInv(s, keep, {}) && s.current.None? && s.gray != []
    ensures MarkInv(Pop(s), keep, {}) && Pop(s).phase == s.phase
  {
    var u := Pop(s);
    assert forall a :: a in s.gray <==> a in u.gray || Some(a) == u.current;
    ProtectionKept(s, u, keep, {}, {});
  }

  lemma DarkenChildKeeps(s: State, keep: set<Addr>, v: Value, room: Room)
    requires MarkInv(s, keep, {}) && (v.Ptr? ==> v.target in keep)
    ensures var t := DarkenChild(s, v, room);
            MarkInv(t, keep, {}) && SameShape(s.heap, t.heap) && t.current == s.current && t.index == s.index && t.phase == s.phase
    ensures v.Ptr? ==> DarkenChild(s, v, room).heap[v.target].color != White
  {
    if v.Ptr? && s.heap[v.target].color == White {
      GrayedKeeps(s, keep, {}, v.target, room);
      PushFrame(SetColor(s, v.target, Gray), v.target, room);
    }
  }

  /** Moving past a field whose target is no longer white keeps the marking invariant. */
  lemma NextFieldKeeps(t: State, keep: set<Addr>)
    requires MarkInv(t, keep, {}) && t.current.Some? && t.index < |t.heap[t.current.value].fields|
    requires var v := t.heap[t.current.value].fields[t.index]; v.Ptr? ==> v.target in t.heap && t.heap[v.target].color != White
    ensures MarkInv(t.(index := t.index + 1), keep, {})
  {
    ProtectionKept(t, t.(index := t.index + 1), keep, {}, {});
  }

  lemma ScanFieldKeeps(s: State, keep: set<Addr>, room: Room)
    requires MarkInv(s, keep, {}) && s.current.Some?
    requires s.heap[s.current.value].scan && s.index < |s.heap[s.current.value].fields|
    ensures MarkInv(ScanField(s, room), keep, {}) && ScanField(s, room).phase == s.phase
  {
    var child := s.heap[s.current.value].fields[s.index];
    assert KeptFields(s.heap[s.current.value], keep);
    DarkenChildKeeps(s, keep, child, room);
    NextFieldKeeps(DarkenChild(s, child, room), keep);
  }

  lemma BlackenKeeps(s: State, keep: set<Addr>)
    requires MarkInv(s, keep, {}) && s.current.Some?
    requires s.heap[s.current.value].scan ==> s.index == |s.heap[s.current.value].fields|
    ensures MarkInv(Blacken(s), keep, {}) && Blacken(s).phase == s.phase
  {
    var u, v := Blacken(s), s.current.value;
    RecolorKeepsCommon(s, keep, v, Black);
    if s.markhp.Some? { ShapeKeepsBoundary(s.heap, u.heap, s.markhp.value); }
    ProtectionKept(s, u, keep, {}, {});
  }

  /** No block lies between the end of a chunk and the start of the next one. */
  lemma GapIsEmpty(s: State, c: Chunk, a: Addr)
    requires Layout(s) && c in s.chunks && a in s.heap && c.limit <= a
    ensures ChunkAfter(s.chunks, c.start).Some? && ChunkAfter(s.chunks, c.start).value.start <= a
  {
    ChunkAfterIsNext(s.chunks, c.start);
    assert Covered(s.chunks, a);
      var d :| d in s.chunks && d.start <= a < d.limit;
    assert c.start < d.start;
  }

  /** The blocks below the start of the next chunk end before it. */
  lemma NextChunkBoundary(s: State, c: Chunk)
    requires Layout(s) && c in s.chunks
    ensures Boundary(s.heap, c.start) && c.start in s.heap
  {
  }

  lemma AdvanceHpKeeps(s: State, keep: set<Addr>)
    requires MarkInv(s, keep, {}) && s.current.None? && s.gray == [] && s.markhp.Some?
    ensures MarkInv(AdvanceHp(s), keep, {}) && AdvanceHp(s).phase == s.phase
  {
    var u, h := AdvanceHp(s), s.markhp.value;
    if h == s.chunk.limit {
      forall a | a in s.heap && h <= a ensures u.markhp.Some? && u.markhp.value <= a {
        GapIsEmpty(s, s.chunk, a);
      }
      if u.markhp.Some? { NextChunkBoundary(s, u.chunk); }
    } else {
      forall a | a in s.heap && h <= a && a != h ensures End(s.heap, h) <= a { }
      AdvanceInChunk(s);
    }
    ProtectionKept(s, u, keep, {}, {});
  }

  lemma AdvanceInChunk(s: State)
    requires Layout(s) && MarkerState(s) && s.markhp.Some? && s.markhp.value != s.chunk.limit
    ensures var e := End(s.heap, s.markhp.value);
            Boundary(s.heap, e) && e <= s.chunk.limit && (e == s.chunk.limit || e in s.heap)
  {
    assert Follows(s.heap, s.chunk, s.markhp.value);
  }

  lemma RescanKeeps(s: State, keep: set<Addr>)
    requires MarkInv(s, keep, {}) && s.current.None? && s.gray == []
    ensures MarkInv(Rescan(s), keep, {}) && Rescan(s).phase == s.phase
  {
    var u := Rescan(s);
    NextChunkBoundary(s, s.chunks[0]);
    forall a | a in s.heap ensures s.chunks[0].start <= a {
      assert Covered(s.chunks, a);
      var d :| d in s.chunks && d.start <= a < d.limit;
    }
    ProtectionKept(s, u, keep, {}, {});
  }

  /** When the marker has nothing left to do, no gray block remains in the heap. */
  lemma MarkDoneNoGray(s: State, keep: set<Addr>)
    requires MarkInv(s, keep, {}) && s.current.None? && s.gray == [] && s.markhp.None? && s.pure
    ensures forall a :: a in s.heap ==> s.heap[a].color != Gray
  {
  }

  /** ... and then every kept block is black: the snapshot has been marked completely. */
  lemma MarkDoneAllBlack(s: State, keep: set<Addr>)
    requires MarkInv(s, keep, {}) && s.current.None? && s.gray == [] && s.markhp.None? && s.pure
    ensures forall a :: a in keep ==> s.heap[a].color == Black
  {
    MarkDoneNoGray(s, keep);
    var x := Whites(s, keep);
    assert !Entered(s, keep, x);
    assert x == {};
    forall a | a in keep ensures s.heap[a].color == Black {
      assert a !in x;
    }
  }

  lemma InitSweepInv(s: State, keep: set<Addr>, dropped: set<Addr>)
    requires s.phase == Mark && MarkInv(s, keep, {}) && s.current.None? && s.gray == [] && s.markhp.None? && s.pure
    ensures Inv(InitSweep(s, dropped), keep)
  {
    var u := InitSweep(s, dropped);
    MarkDoneAllBlack(s, keep);
    MarkDoneNoGray(s, keep);
    NextChunkBoundary(s, s.chunks[0]);
    assert Sorted(s.chunks) && s.chunks[0] in s.chunks;
    forall a | a in s.heap ensures s.chunks[0].start <= a {
      assert Covered(s.chunks, a);
      var d :| d in s.chunks && d.start <= a < d.limit;
    }
    assert Layout(u);
    assert Closed(u, keep) by {
      forall a | a in keep ensures KeptFields(u.heap[a], keep) { assert KeptFields(s.heap[a], keep); }
    }
  }

  /** Every step of the marker keeps the invariant; the last one starts a sound sweep. */
  lemma MarkStepKeeps(s: State, keep: set<Addr>, room: Room, dropped: set<Addr>)
    requires s.phase == Mark && Inv(s, keep)
    ensures Steppable(s) && Inv(MarkStep(s, room, dropped), keep)
  {
    InvSteppable(s, keep);
    if s.current.None? && s.gray != [] {
      PopKeeps(s, keep);
    } else if s.current.Some? {
      if s.heap[s.current.value].scan && s.index < |s.heap[s.current.value].fields| {
        ScanFieldKeeps(s, keep, room);
      } else {
        BlackenKeeps(s, keep);
      }
    } else if s.markhp.Some? {
      AdvanceHpKeeps(s, keep);
    } else if !s.pure {
      RescanKeeps(s, keep);
    } else if s.subphase == MarkFinal {
      InitSweepInv(s, keep, dropped);
    } else {
      SameMarksProtection(s, NextSubphase(s, dropped), keep, {});
    }
  }
}
