// The major collector's procedures as they run: fields updated in place, loops
// over fields and heap addresses, each proved to be a run of events.

module MajorCollector {
  import opened Basics
  import opened MajorHeap
  import opened Marking
  import opened Cycles
  import opened CycleSafety
  import opened CycleRuns
  import R = Reclaiming

  // ---------------------------------------------------------------- work

  /** What a step of the marker or the sweeper costs: a word for each field darkened and for each block
      finished, the whole block where none of its fields is looked at. */
  ghost function Cost(s: State): nat {
    if s.phase == Sweep then
      if s.sweephp != s.chunk.limit && s.sweephp in s.heap then 1 + |s.heap[s.sweephp].fields| else 0
    else if s.current.None? || s.current.value !in s.heap then 0
    else if s.heap[s.current.value].scan then 1
    else 1 + |s.heap[s.current.value].fields|
  }

  ghost function Spent(s: State, es: seq<Event>): nat
    decreases |es|
  {
    if es == [] || !Enabled(s, es[0]) then 0 else Cost(s) + Spent(Apply(s, es[0]), es[1..])
  }

  ghost predicate Marks(es: seq<Event>) {
    forall e :: e in es ==> e.MarkOne?
  }

  ghost predicate Sweeps(es: seq<Event>) {
    forall e :: e in es ==> e.SweepOne?
  }

  lemma {:induction false} RunConcat(s: State, es: seq<Event>, t: State, fs: seq<Event>, u: State)
    requires Run(s, es, t) && Run(t, fs, u)
    ensures Run(s, es + fs, u)
    decreases |es|
  {
    if es == [] {
      assert es + fs == fs;
    } else {
      RunConcat(Apply(s, es[0]), es[1..], t, fs, u);
      assert (es + fs)[0] == es[0] && (es + fs)[1..] == es[1..] + fs;
    }
  }

  lemma RunOne(s: State, e: Event)
    requires Enabled(s, e)
    ensures Run(s, [e], Apply(s, e))
  {
    assert [e][1..] == [];
  }

  lemma {:induction false} SpentConcat(s: State, es: seq<Event>, t: State, fs: seq<Event>)
    requires Run(s, es, t)
    ensures Spent(s, es + fs) == Spent(s, es) + Spent(t, fs)
    decreases |es|
  {
    if es == [] {
      assert es + fs == fs;
    } else {
      SpentConcat(Apply(s, es[0]), es[1..], t, fs);
      assert (es + fs)[0] == es[0] && (es + fs)[1..] == es[1..] + fs;
    }
  }

  /** One more step at the end of a run. */
  lemma RunSnoc(s: State, es: seq<Event>, t: State, e: Event, u: State)
    requires Run(s, es, t) && Enabled(t, e) && u == Apply(t, e)
    ensures Run(s, es + [e], u) && Spent(s, es + [e]) == Spent(s, es) + Cost(t)
  {
    RunOne(t, e);
    RunConcat(s, es, t, [e], u);
    SpentConcat(s, es, t, [e]);
    assert [e][1..] == [];
  }

  // ---------------------------------------------------------------- progress of marking

  ghost function ColorSet(s: State, c: Color): set<Addr> {
    set a | a in s.heap && s.heap[a].color == c
  }

  /** End of the last chunk. */
  function Top(s: State): nat
    requires s.chunks != []
  {
    s.chunks[|s.chunks| - 1].limit
  }

  /** How far the heap scan still has to go. */
  ghost function HpRank(s: State): nat
    requires s.chunks != []
  {
    if s.markhp.None? then 0
    else 1 + (if s.markhp.value <= Top(s) then Top(s) - s.markhp.value else 0)
           + (if s.chunk.start <= Top(s) then Top(s) - s.chunk.start else 0)
  }

  function SubRank(s: State): nat {
    match s.subphase case MarkRoots => 2 case MarkMain => 1 case MarkFinal => 0
  }

  lemma PushColors(s: State, a: Addr, room: Room)
    requires a in s.heap && s.heap[a].color == White
    ensures var u := Push(SetColor(s, a, Gray), a, room); ColorSet(u, White) == ColorSet(s, White) - {a}
  {
    PushFrame(SetColor(s, a, Gray), a, room);
  }

  /** Scanning a field either turns a white block gray or changes no colour. */
  lemma ScanFieldProgress(s: State, room: Room)
    requires s.current.Some? && s.current.value in s.heap && s.index < |s.heap[s.current.value].fields|
    requires var v := s.heap[s.current.value].fields[s.index]; v.Ptr? ==> v.target in s.heap
    ensures var u := ScanField(s, room);
            && SameShape(s.heap, u.heap) && u.current == s.current && u.index == s.index + 1
            && u.chunks == s.chunks && u.phase == s.phase
            && (ColorSet(u, White) < ColorSet(s, White)
                || (ColorSet(u, White) == ColorSet(s, White) && u == s.(index := s.index + 1)))
  {
    var v := s.heap[s.current.value].fields[s.index];
    if v.Ptr? && s.heap[v.target].color == White {
      PushColors(s, v.target, room);
      PushFrame(SetColor(s, v.target, Gray), v.target, room);
      assert v.target in ColorSet(s, White);
    }
  }

  lemma BlackenProgress(s: State)
    requires s.current.Some? && s.current.value in s.heap && s.heap[s.current.value].color == Gray
    ensures var u := Blacken(s);
            && ColorSet(u, White) == ColorSet(s, White) && ColorSet(u, Gray) < ColorSet(s, Gray)
  {
    assert s.current.value in ColorSet(s, Gray);
  }

  lemma {:induction false} ChunksBelowTop(chunks: seq<Chunk>, c: Chunk)
    requires Sorted(chunks) && c in chunks
    ensures c.limit <= chunks[|chunks| - 1].limit
  {
    var i :| 0 <= i < |chunks| && chunks[i] == c;
  }

  lemma AdvanceHpProgress(s: State, keep: set<Addr>)
    requires MarkInv(s, keep, {}) && s.markhp.Some?
    ensures var u := AdvanceHp(s);
            u.chunks == s.chunks && u.heap == s.heap && u.pure == s.pure && HpRank(u) < HpRank(s)
  {
    ChunksBelowTop(s.chunks, s.chunk);
    if s.markhp.value == s.chunk.limit {
      ChunkAfterIsNext(s.chunks, s.chunk.start);
      if ChunkAfter(s.chunks, s.chunk.start).Some? {
        var c := ChunkAfter(s.chunks, s.chunk.start).value;
        ChunksBelowTop(s.chunks, c);
        assert s.chunk.limit <= c.start;
      }
    } else {
      AdvanceInChunk(s);
    }
  }

  class Major {
    var heap: map<Addr, Block>
    var chunks: seq<Chunk>
    var roots: set<Addr>
    var free: set<Addr>
    var refTable: set<(Addr, nat)>
    var phase: Phase
    var subphase: Subphase
    var gray: seq<Addr>
    var graySize: nat
    var pure: bool
    var current: Option<Addr>
    var index: nat
    var markhp: Option<Addr>
    var chunk: Chunk
    var sweephp: Addr

    ghost function S(): State
      reads this
    {
      State(heap, chunks, roots, free, refTable, phase, subphase, gray, graySize, pure, current, index, markhp, chunk, sweephp)
    }

    /** realloc_gray_vals; `grown` is whether the request for more memory succeeds, `roomy` whether
        the stack is still small enough relative to the heap to ask for it. */
    method ReallocGrayVals(roomy: bool, grown: bool) returns (ghost room: Room)
      requires |gray| >= graySize
      modifies this
      ensures S() == match room
                     case Grow => old(S()).(graySize := 2 * old(graySize))
                     case KeepHalf => old(S()).(gray := old(gray)[..old(graySize) / 2], pure := false)
                     case DropAll => old(S()).(gray := [], pure := false)
      ensures room == if !roomy then KeepHalf else if grown then Grow else DropAll
    {
      if roomy {
        if !grown {
          gray := [];
          pure := false;
          room := DropAll;
        } else {
          graySize := 2 * graySize;
          room := Grow;
        }
      } else {
        gray := gray[..graySize / 2];
        pure := false;
        room := KeepHalf;
      }
    }

    method PushGray(a: Addr, roomy: bool, grown: bool) returns (ghost room: Room)
      requires a in heap && heap[a].color == White
      modifies this
      ensures S() == Push(SetColor(old(S()), a, Gray), a, room)
    {
      heap := heap[a := heap[a].(color := Gray)];
      gray := gray + [a];
      room := Grow;
      if |gray| >= graySize {
        room := ReallocGrayVals(roomy, grown);
      }
    }

    method CamlDarken(a: Addr, roomy: bool, grown: bool) returns (ghost room: Room)
      requires a in heap
      modifies this
      ensures S() == Darken(old(S()), a, room)
    {
      room := Grow;
      if heap[a].color == White {
        if heap[a].scan {
          room := PushGray(a, roomy, grown);
        } else {
          heap := heap[a := heap[a].(color := Black)];
        }
      }
    }

    /** caml_modify on a slot of the major heap. */
    method CamlModify(a: Addr, i: nat, v: Value, roomy: bool, grown: bool) returns (ghost room: Room)
      requires a in heap && i < |heap[a].fields|
      requires heap[a].fields[i].Ptr? ==> heap[a].fields[i].target in heap
      modifies this
      ensures S() == ModifySlot(old(S()), a, i, v, room)
    {
      var prior := heap[a].fields[i];
      heap := heap[a := heap[a].(fields := heap[a].fields[i := v])];
      room := Grow;
      if prior.Young? { return; }
      if prior.Ptr? && phase == Mark {
        room := CamlDarken(prior.target, roomy, grown);
      }
      if v.Young? {
        refTable := refTable + {(a, i)};
      }
    }

    /** The body of the loop of caml_array_fill, which inlines the write barrier. */
    method FillOne(a: Addr, fp: nat, v: Value, roomy: bool, grown: bool, ghost keep: set<Addr>)
      returns (ghost es: seq<Event>)
      requires Inv(S(), keep) && a in roots && a in heap && heap[a].scan && fp < |heap[a].fields|
      requires v.Ptr? ==> v.target in roots
      modifies this
      ensures Inv(S(), keep) && Run(old(S()), es, S()) && roots == old(roots)
      ensures a in heap && heap[a].scan && heap[a].fields == old(heap[a].fields)[fp := v]
    {
      es := [];
      ghost var s := S();
      if heap[a].fields[fp] != v {
        RootReachable(s, a);
        ReachableKept(s, keep, a);
        if v.Ptr? { RootReachable(s, v.target); ReachableKept(s, keep, v.target); }
        WriteEnabled(s, keep, a, fp, v);
        ghost var room := CamlModify(a, fp, v, roomy, grown);
        ModifyKeeps(s, keep, a, fp, v, room);
        ModifyFrame(s, a, fp, v, room);
        es := [Modify(a, fp, v, room)];
        RunOne(s, Modify(a, fp, v, room));
      }
    }

    /** The major-heap loop of caml_array_fill: a run of barriered writes that leaves exactly `len`
        fields equal to `v`.  The caller holds the array and the value, so they are roots. */
    method ArrayFill(a: Addr, ofs: nat, len: nat, v: Value, roomy: bool, grown: bool, ghost keep: set<Addr>)
      returns (ghost es: seq<Event>)
      requires Inv(S(), keep) && a in roots && a in heap && heap[a].scan && ofs + len <= |heap[a].fields|
      requires v.Ptr? ==> v.target in roots
      modifies this
      ensures Inv(S(), keep) && Run(old(S()), es, S())
      ensures a in heap && heap[a].fields == Filled(old(heap[a].fields), ofs, len, v)
    {
      var fp, n := ofs, len;
      ghost var start := heap[a].fields;
      FillNothing(start, ofs, v);
      es := [];
      while n > 0
        invariant 0 <= n && fp + n == ofs + len && ofs <= fp && roots == old(roots) && ofs + len <= |start|
        invariant Inv(S(), keep) && Run(old(S()), es, S())
        invariant a in heap && heap[a].scan
        invariant heap[a].fields == Filled(start, ofs, fp - ofs, v)
      {
        FillStep(start, ofs, fp - ofs, v);
        ghost var mid := S();
        ghost var fs := FillOne(a, fp, v, roomy, grown, keep);
        RunConcat(old(S()), es, mid, fs, S());
        es := es + fs;
        n := n - 1;
        fp := fp + 1;
      }
    }

    // -------------------------------------------------------------- mark_slice

    /** The body of the inner loop of mark_slice: darken the child in field `index`. */
    method MarkField(roomy: bool, grown: bool, ghost keep: set<Addr>) returns (ghost e: Event)
      requires Inv(S(), keep) && phase == Mark && current.Some?
      requires heap[current.value].scan && index < |heap[current.value].fields|
      modifies this
      ensures e.MarkOne? && Enabled(old(S()), e) && S() == Apply(old(S()), e) && Inv(S(), keep)
      ensures FieldProgress(old(S()), S(), old(index) + 1) && Cost(old(S())) == 1
    {
      ghost var s := S();
      var child := heap[current.value].fields[index];
      assert KeptFields(s.heap[current.value], keep);
      ghost var room := Grow;
      if child.Ptr? && heap[child.target].color == White {
        room := PushGray(child.target, roomy, grown);
      }
      index := index + 1;
      e := MarkOne(room, {});
      MarkedField(s, S(), keep, room);
    }

    /** The inner loop of mark_slice: darken the children in fields `index` to `end - 1`. */
    method MarkFields(end: nat, roomy: bool, grown: bool, ghost keep: set<Addr>) returns (ghost es: seq<Event>)
      requires Inv(S(), keep) && phase == Mark && current.Some?
      requires heap[current.value].scan && index <= end <= |heap[current.value].fields|
      modifies this
      ensures Inv(S(), keep) && Run(old(S()), es, S()) && Marks(es)
      ensures |es| == Spent(old(S()), es) == end - old(index)
      ensures FieldProgress(old(S()), S(), end)
    {
      es := [];
      ghost var s0 := S();
      while index < end
        invariant Inv(S(), keep) && Run(s0, es, S()) && Marks(es)
        invariant s0.index <= index <= end && FieldProgress(s0, S(), index) && |es| == Spent(s0, es) == index - s0.index
        decreases end - index
      {
        ghost var s := S();
        ghost var e := MarkField(roomy, grown, keep);
        RunSnoc(s0, es, s, e, S());
        es := es + [e];
      }
    }

    method PopGray(ghost keep: set<Addr>) returns (ghost e: Event)
      requires Inv(S(), keep) && phase == Mark && current.None? && gray != []
      modifies this
      ensures e.MarkOne? && Enabled(old(S()), e) && S() == Apply(old(S()), e) && Inv(S(), keep)
      ensures S() == Pop(old(S())) && Cost(old(S())) == 0
    {
      MarkStepKeeps(S(), keep, Grow, {});
      current := Some(gray[|gray| - 1]);
      gray := gray[..|gray| - 1];
      e := MarkOne(Grow, {});
    }

    /** The block being scanned has no field left to scan: it turns black. */
    method FinishBlock(ghost keep: set<Addr>) returns (ghost e: Event)
      requires Inv(S(), keep) && phase == Mark && current.Some?
      requires heap[current.value].scan ==> index == |heap[current.value].fields|
      modifies this
      ensures e.MarkOne? && Enabled(old(S()), e) && S() == Apply(old(S()), e) && Inv(S(), keep)
      ensures Cost(old(S())) == if old(heap[current.value].scan) then 1 else 1 + |old(heap[current.value].fields)|
      ensures phase == Mark && ColorSet(S(), White) == ColorSet(old(S()), White)
      ensures ColorSet(S(), Gray) < ColorSet(old(S()), Gray)
    {
      MarkStepKeeps(S(), keep, Grow, {});
      BlackenProgress(S());
      heap := heap[current.value := heap[current.value].(color := Black)];
      current := None;
      index := 0;
      e := MarkOne(Grow, {});
    }

    /** Scanning the current block until it is done or the slice's work is used up. */
    method MarkBlock(work: nat, roomy: bool, grown: bool, ghost keep: set<Addr>) returns (left: int,
        ghost es: seq<Event>)
      requires Inv(S(), keep) && phase == Mark && current.Some? && work > 0
      modifies this
      ensures Inv(S(), keep) && phase == Mark && Run(old(S()), es, S()) && Marks(es)
              && left == work - Spent(old(S()), es)
      ensures left <= 0 || ColorSet(S(), White) < ColorSet(old(S()), White)
              || (ColorSet(S(), White) == ColorSet(old(S()), White) && ColorSet(S(), Gray) < ColorSet(old(S()), Gray))
    {
      ghost var s := S();
      var v := current.value;
      var size := |heap[v].fields|;
      if heap[v].scan {
        var start := index;
        var end := if size < start + work then size else start + work;
        es := MarkFields(end, roomy, grown, keep);
        if end < size {
          left := 0;
        } else {
          ghost var m := S();
          ghost var e := FinishBlock(keep);
          RunSnoc(s, es, m, e, S());
          es := es + [e];
          left := work - (1 + end - start);
        }
      } else {
        ghost var e := FinishBlock(keep);
        RunSnoc(s, [], s, e, S());
        es := [e];
        left := work - (1 + size);
      }
    }

    /** The heap scan moves past one block, or from the end of a chunk to the next chunk. */
    method AdvanceMarkHp()
      requires current.None? && markhp.Some? && (markhp.value == chunk.limit || markhp.value in heap)
      modifies this
      ensures S() == AdvanceHp(old(S()))
    {
      if markhp.value == chunk.limit {
        match ChunkAfter(chunks, chunk.start) {
          case None => markhp := None;
          case Some(c) => chunk := c; markhp := Some(c.start);
        }
      } else {
        var h := markhp.value;
        if heap[h].color == Gray {
          current := Some(h);
        }
        markhp := Some(End(heap, h));
      }
    }

    /** Nothing pending: rescan an impure heap, else enter the next subphase or start sweeping. */
    method NextStage(dropped: set<Addr>)
      requires chunks != []
      modifies this
      ensures S() == if !old(pure) then Rescan(old(S())) else NextSubphase(old(S()), dropped)
    {
      if !pure {
        pure := true;
        chunk := chunks[0];
        markhp := Some(chunks[0].start);
      } else {
        match subphase {
          case MarkRoots => subphase := MarkMain;
          case MarkMain => subphase := MarkFinal;
          case MarkFinal =>
            free := free - set a | a in dropped && a in heap && heap[a].color == White;
            phase := Sweep;
            chunk := chunks[0];
            sweephp := chunks[0].start;
        }
      }
    }

    /** The branches of the loop of mark_slice taken when no block is being scanned or stacked. */
    method SearchStep(dropped: set<Addr>, ghost keep: set<Addr>) returns (ghost e: Event)
      requires Inv(S(), keep) && phase == Mark && current.None? && gray == []
      modifies this
      ensures e.MarkOne? && Enabled(old(S()), e) && S() == Apply(old(S()), e) && Inv(S(), keep) && Cost(old(S())) == 0
      ensures phase == Mark ==> Lower(S(), old(S()))
      ensures phase == Mark || phase == Sweep
    {
      ghost var s := S();
      MarkStepKeeps(s, keep, Grow, dropped);
      e := MarkOne(Grow, dropped);
      SearchProgress(s, keep, dropped);
      if markhp.Some? {
        AdvanceMarkHp();
      } else {
        NextStage(dropped);
      }
    }

    /** One iteration of the loop of mark_slice. */
    method MarkIteration(work: nat, roomy: bool, grown: bool, dropped: set<Addr>, ghost keep: set<Addr>)
      returns (left: int, ghost es: seq<Event>)
      requires Inv(S(), keep) && phase == Mark && work > 0
      modifies this
      ensures Inv(S(), keep) && Run(old(S()), es, S()) && Marks(es)
      ensures left == if phase == Sweep then 0 else work - Spent(old(S()), es)
      ensures left > 0 ==> phase == Mark && Lower(S(), old(S()))
      ensures phase == Mark || phase == Sweep
    {
      ghost var s := S();
      if current.None? && gray == [] {
        ghost var e := SearchStep(dropped, keep);
        RunSnoc(s, [], s, e, S());
        es := [e];
        left := if phase == Sweep then 0 else work;
      } else {
        ghost var fs := [];
        if current.None? {
          ghost var e := PopGray(keep);
          RunSnoc(s, [], s, e, S());
          fs := [e];
        }
        ghost var m := S();
        left, es := MarkBlock(work, roomy, grown, keep);
        RunConcat(s, fs, m, es, S());
        SpentConcat(s, fs, m, es);
        es := fs + es;
      }
    }

    /** mark_slice: a run of marking steps, and of nothing else, that ends when the work is used up or
        sweeping starts. */
    method MarkSlice(work: nat, roomy: bool, grown: bool, dropped: set<Addr>, ghost keep: set<Addr>)
      returns (ghost es: seq<Event>)
      requires Inv(S(), keep) && phase == Mark
      modifies this
      ensures Inv(S(), keep) && Run(old(S()), es, S()) && Marks(es)
      ensures phase == Sweep || (phase == Mark && Spent(old(S()), es) >= work)
    {
      var left: int := work;
      ghost var s0 := S();
      es := [];
      while left > 0
        invariant Inv(S(), keep) && Run(s0, es, S()) && Marks(es)
        invariant if phase == Sweep then left <= 0 else phase == Mark && left == work - Spent(s0, es)
        decreases left > 0, ColorSet(S(), White), ColorSet(S(), Gray), !pure, HpRank(S()), SubRank(S())
      {
        ghost var s := S();
        ghost var fs;
        left, fs := MarkIteration(left, roomy, grown, dropped, keep);
        RunConcat(s0, es, s, fs, S());
        SpentConcat(s0, es, s, fs);
        es := es + fs;
      }
    }

    // -------------------------------------------------------------- sweep_slice

    /** One iteration of the loop of sweep_slice; returns the work done. */
    method SweepOnce() returns (done: nat)
      requires sweephp == chunk.limit || sweephp in heap
      modifies this
      ensures S() == SweepStep(old(S()))
      ensures done == if old(sweephp == chunk.limit) then 0 else 1 + |old(heap[sweephp].fields)|
    {
      done := 0;
      if sweephp == chunk.limit {
        match ChunkAfter(chunks, chunk.start) {
          case None => phase := Idle;
          case Some(c) => chunk := c; sweephp := c.start;
        }
      } else {
        var h, b := sweephp, heap[sweephp];
        done := 1 + |b.fields|;
        sweephp := End(heap, h);
        match b.color {
          case White =>
            if b.fields != [] {
              heap := heap[h := Block(Blue, false, Blank(|b.fields|))];
              free := free + {h};
            }
          case Blue =>
          case Gray => heap := heap[h := b.(color := White)];
          case Black => heap := heap[h := b.(color := White)];
        }
      }
    }

    /** sweep_slice: a run of sweeping steps, and of nothing else, that ends when the work is used up or the
        whole heap is swept. */
    method SweepSlice(work: nat, ghost keep: set<Addr>) returns (ghost es: seq<Event>)
      requires Inv(S(), keep) && phase == Sweep
      modifies this
      ensures Inv(S(), keep) && Run(old(S()), es, S()) && Sweeps(es) && R.SweptFrom(old(S()), S())
      ensures forall a :: a in old(heap) && old(heap[a].color) == White && old(heap[a].fields) != [] && old(sweephp) <= a ==>
                phase == Idle || a < sweephp ==> a in heap && a in free && heap[a].color == Blue
      ensures phase == Idle || (phase == Sweep && Spent(old(S()), es) >= work)
    {
      var left: int := work;
      ghost var s0 := S();
      es := [];
      R.SweptFromStart(s0);
      while left > 0
        invariant Inv(S(), keep) && Run(s0, es, S()) && Sweeps(es) && R.SweptFrom(s0, S())
        invariant if phase == Idle then left <= 0 else phase == Sweep && left == work - Spent(s0, es)
        decreases left, HpSweep(S())
      {
        ghost var s := S();
        R.SweptFurther(s0, s, keep);
        left := SweepIteration(left, keep);
        RunSnoc(s0, es, s, SweepOne, S());
        es := es + [SweepOne];
      }
      R.SweptWhites(s0, S());
    }

    /** One iteration of the loop of sweep_slice: one sweeping step. */
    method SweepIteration(work: nat, ghost keep: set<Addr>) returns (left: int)
      requires Inv(S(), keep) && phase == Sweep && work > 0
      modifies this
      ensures Enabled(old(S()), SweepOne) && S() == Apply(old(S()), SweepOne) && Inv(S(), keep)
      ensures if phase == Idle then left == 0 else phase == Sweep && left == work - Cost(old(S()))
      ensures left < work || HpSweep(S()) < HpSweep(old(S()))
    {
      SweepKeeps(S(), keep);
      if sweephp == chunk.limit { SweepProgress(S(), keep); }
      var done := SweepOnce();
      left := if phase == Idle then 0 else work - done;
    }

    /** caml_darken_all_roots_start: caml_darken on every root. */
    method DarkenRoots(order: seq<Addr>, roomy: bool, grown: bool) returns (ghost rooms: seq<Room>)
      requires forall r :: r in order ==> r in heap
      modifies this
      ensures |rooms| == |order| && S() == DarkenAll(old(S()), order, rooms)
    {
      ghost var t := S();
      var i := 0;
      rooms := [];
      while i < |order|
        invariant 0 <= i <= |order| && |rooms| == i
        invariant forall r :: r in order[..i] ==> r in t.heap
        invariant forall r :: r in order ==> r in heap
        invariant S() == DarkenAll(t, order[..i], rooms)
      {
        ghost var room := CamlDarken(order[i], roomy, grown);
        DarkenSnoc(t, order[..i], rooms, order[i], room);
        assert order[..i + 1] == order[..i] + [order[i]];
        rooms := rooms + [room];
        i := i + 1;
      }
      assert order[..i] == order;
    }

    /** start_cycle: every root is darkened before the mutator runs again. */
    method StartMarking(order: seq<Addr>, roomy: bool, grown: bool, ghost keep: set<Addr>)
      returns (ghost rooms: seq<Room>)
      requires Inv(S(), keep) && phase == Idle && forall r :: r in order <==> r in roots
      modifies this
      ensures |rooms| == |order| && Enabled(old(S()), StartCycle(order, rooms))
      ensures S() == Apply(old(S()), StartCycle(order, rooms)) && Inv(S(), Live(old(S())))
    {
      ghost var s := S();
      phase := Mark;
      subphase := MarkRoots;
      markhp := None;
      rooms := DarkenRoots(order, roomy, grown);
      StartKeeps(s, keep, order, rooms);
    }
  }

  /** The marker made progress: no step can be repeated for ever. */
  ghost predicate Lower(t: State, s: State)
    requires t.chunks != [] && s.chunks != []
  {
    var (w, g) := (ColorSet(t, White), ColorSet(t, Gray));
    || w < ColorSet(s, White)
    || (w == ColorSet(s, White) && g < ColorSet(s, Gray))
    || (w == ColorSet(s, White) && g == ColorSet(s, Gray)
        && ((t.pure && !s.pure)
            || (t.pure == s.pure && HpRank(t) < HpRank(s))
            || (t.pure == s.pure && HpRank(t) == HpRank(s) && SubRank(t) < SubRank(s))))
  }

  lemma SearchProgress(s: State, keep: set<Addr>, dropped: set<Addr>)
    requires Inv(s, keep) && s.phase == Mark && s.current.None? && s.gray == []
    ensures s.chunks != []
    ensures s.markhp.Some? ==> var u := AdvanceHp(s); u.phase == Mark && u.chunks != [] && Lower(u, s)
    ensures s.markhp.None? && !s.pure ==> var u := Rescan(s); u.phase == Mark && Lower(u, s)
    ensures s.markhp.None? && s.pure ==> var u := NextSubphase(s, dropped); u.chunks != [] && (u.phase == Sweep || (u.phase == Mark && Lower(u, s)))
  {
    if s.markhp.Some? { AdvanceHpProgress(s, keep); }
  }

  lemma SweepProgress(s: State, keep: set<Addr>)
    requires Inv(s, keep) && s.phase == Sweep && s.sweephp == s.chunk.limit
    ensures var t := SweepStep(s); t.phase == Idle || HpSweep(t) < HpSweep(s)
  {
    NextChunkProgress(s.chunks, s.chunk.start);
  }

  lemma NextChunkProgress(chunks: seq<Chunk>, start: Addr)
    requires Sorted(chunks)
    ensures ChunkAfter(chunks, start).Some? ==>
              chunks != [] && start < ChunkAfter(chunks, start).value.start <= chunks[|chunks| - 1].limit
  {
    ChunkAfterIsNext(chunks, start);
    if ChunkAfter(chunks, start).Some? {
      ChunksBelowTop(chunks, ChunkAfter(chunks, start).value);
    }
  }

  ghost function HpSweep(s: State): nat {
    if s.chunks == [] then 0
    else (if s.chunk.start <= Top(s) then Top(s) - s.chunk.start else 0)
  }

  lemma {:induction false} DarkenSnoc(s: State, order: seq<Addr>, rooms: seq<Room>, a: Addr, room: Room)
    requires |rooms| == |order| && (forall r :: r in order ==> r in s.heap) && a in s.heap
    ensures SameShape(s.heap, DarkenAll(s, order, rooms).heap)
    ensures forall r :: r in order + [a] ==> r in s.heap
    ensures DarkenAll(s, order + [a], rooms + [room]) == Darken(DarkenAll(s, order, rooms), a, room)
    decreases |order|
  {
    DarkenAllFrame(s, order, rooms);
    if order == [] {
      assert order + [a] == [a] && rooms + [room] == [room];
      assert DarkenAll(Darken(s, a, room), [a][1..], [room][1..]) == Darken(s, a, room);
    } else {
      var t := Darken(s, order[0], rooms[0]);
      assert SameShape(s.heap, t.heap);
      assert (order + [a])[1..] == order[1..] + [a] && (rooms + [room])[1..] == rooms[1..] + [room];
      DarkenSnoc(t, order[1..], rooms[1..], a, room);
    }
  }

  /** Scanning up to field `end` of the current block: some white block turned gray, or nothing
      but the index changed. */
  ghost predicate FieldProgress(s: State, t: State, end: nat) {
    && SameShape(s.heap, t.heap) && t.current == s.current && t.index == end
    && t.chunks == s.chunks && t.phase == s.phase
    && (ColorSet(t, White) < ColorSet(s, White)
        || (ColorSet(t, White) == ColorSet(s, White) && t == s.(index := end)))
  }

  /** One iteration of the inner loop is one marking step. */
  lemma MarkedField(s: State, t: State, keep: set<Addr>, room: Room)
    requires Inv(s, keep) && s.phase == Mark && s.current.Some?
    requires s.heap[s.current.value].scan && s.index < |s.heap[s.current.value].fields|
    requires Steppable(s) ==> t == ScanField(s, room)
    ensures Enabled(s, MarkOne(room, {})) && t == Apply(s, MarkOne(room, {})) && Inv(t, keep)
    ensures FieldProgress(s, t, s.index + 1)
  {
    MarkStepKeeps(s, keep, room, {});
    ScanFieldProgress(s, room);
  }

  lemma WriteEnabled(s: State, keep: set<Addr>, a: Addr, i: nat, v: Value)
    requires Inv(s, keep) && Reachable(s, a) && a in keep && s.heap[a].scan && i < |s.heap[a].fields| && Held(s, v)
    ensures forall room :: Enabled(s, Modify(a, i, v, room))
  {
    assert KeptFields(s.heap[a], keep);
  }

  /** A write changes one field of one block; otherwise only colours and the remembered set. */
  lemma ModifyFrame(s: State, a: Addr, i: nat, v: Value, room: Room)
    requires a in s.heap && i < |s.heap[a].fields|
    requires s.heap[a].fields[i].Ptr? ==> s.heap[a].fields[i].target in s.heap
    ensures var u := ModifySlot(s, a, i, v, room);
            && a in u.heap && u.roots == s.roots && u.heap[a].scan == s.heap[a].scan
            && u.heap[a].fields == s.heap[a].fields[i := v]
  {
    ModifyIsStore(s, a, i, v, room);
  }

  /** `n` fields from `ofs` on replaced by `v`, the others unchanged. */
  ghost function Filled(start: seq<Value>, ofs: nat, n: nat, v: Value): (r: seq<Value>)
    requires ofs + n <= |start|
    ensures |r| == |start|
    ensures forall i :: 0 <= i < |r| ==> r[i] == if ofs <= i < ofs + n then v else start[i]
  {
    seq(|start|, i requires 0 <= i < |start| => if ofs <= i < ofs + n then v else start[i])
  }

  lemma FillNothing(start: seq<Value>, ofs: nat, v: Value)
    requires ofs <= |start|
    ensures Filled(start, ofs, 0, v) == start
  {
  }

  lemma FillStep(start: seq<Value>, ofs: nat, n: nat, v: Value)
    requires ofs + n < |start|
    ensures Filled(start, ofs, n, v)[ofs + n := v] == Filled(start, ofs, n + 1, v)
  {
  }
}
