// Whole runs of the major collector interleaved with the mutator: every event
// keeps the invariant, so no reachable block is ever handed to the free list.

module Cycles {
  import opened Basics
  import opened MajorHeap
  import opened Marking

  /** What happens to the rest of a free block that is larger than the request. */
  datatype Remnant = Remnant(color: Color, listed: bool)

  datatype Event =
    | Modify(block: Addr, field: nat, val: Value, room: Room)
    | Initialize(block: Addr, field: nat, val: Value)
    | Allocate(from: Addr, scan: bool, contents: seq<Value>, rest: Remnant)
    | Expand(added: Chunk)
    | Mutate(newRoots: set<Addr>)
    | ClearRefTable
    | StartCycle(order: seq<Addr>, rooms: seq<Room>)
    | MarkOne(room: Room, dropped: set<Addr>)
    | SweepOne
    | Coalesce(low: Addr, high: Addr)

  function Blank(n: nat): (r: seq<Value>)
    ensures |r| == n
  {
    seq(n, _ => Imm)
  }

  // ---------------------------------------------------------------- the mutator

  /** A value the mutator can hold: any pointer in it leads to a reachable block. */
  ghost predicate Held(s: State, v: Value) {
    v.Ptr? ==> Reachable(s, v.target)
  }

  ghost predicate Slot(s: State, a: Addr, i: nat) {
    Reachable(s, a) && a in s.heap && s.heap[a].scan && i < |s.heap[a].fields|
  }

  function Write(s: State, a: Addr, i: nat, v: Value): State
    requires a in s.heap && i < |s.heap[a].fields|
  {
    s.(heap := s.heap[a := s.heap[a].(fields := s.heap[a].fields[i := v])])
  }

  function Remember(s: State, a: Addr, i: nat, v: Value): State {
    if v.Young? then s.(refTable := s.refTable + {(a, i)}) else s
  }

  /** caml_modify on a slot of the major heap. */
  function ModifySlot(s: State, a: Addr, i: nat, v: Value, room: Room): State
    requires a in s.heap && i < |s.heap[a].fields|
    requires s.heap[a].fields[i].Ptr? ==> s.heap[a].fields[i].target in s.heap
  {
    var prior := s.heap[a].fields[i];
    var t := Write(s, a, i, v);
    match prior
    case Young(_) => t
    case Ptr(b) => Remember(if s.phase == Mark then Darken(t, b, room) else t, a, i, v)
    case Imm => Remember(t, a, i, v)
  }

  /** caml_allocation_color. */
  function AllocationColor(s: State, hp: Addr): Color {
    if s.phase == Mark || (s.phase == Sweep && hp >= s.sweephp) then Black else White
  }

  /** The allocated block is the high end of the free block. */
  function PlaceIn(heap: map<Addr, Block>, from: Addr, w: nat): Addr
    requires from in heap && w <= |heap[from].fields|
  {
    from + |heap[from].fields| - w
  }

  function Carve(heap: map<Addr, Block>, from: Addr, b: Block, rest: Color): map<Addr, Block>
    requires from in heap && |b.fields| <= |heap[from].fields|
  {
    var n, w := |heap[from].fields|, |b.fields|;
    if n == w then heap[from := b]
    else heap[from := Block(rest, false, Blank(n - w - 1))][PlaceIn(heap, from, w) := b]
  }

  function YoungSlots(hp: Addr, b: Block): set<(Addr, nat)> {
    set i: nat | i < |b.fields| && b.fields[i].Young? :: (hp, i)
  }

  /** caml_alloc_shr followed by the caml_initialize calls that fill the block. */
  function AllocateFrom(s: State, from: Addr, scan: bool, contents: seq<Value>, rest: Remnant): State
    requires from in s.heap && |contents| <= |s.heap[from].fields|
  {
    var n, w := |s.heap[from].fields|, |contents|;
    var hp := PlaceIn(s.heap, from, w);
    var b := Block(AllocationColor(s, hp), scan, contents);
    s.(heap := Carve(s.heap, from, b, rest.color),
       free := if n > w + 1 && rest.listed then s.free else s.free - {from},
       roots := s.roots + {hp},
       refTable := s.refTable + YoungSlots(hp, b))
  }

  function InsertChunk(chunks: seq<Chunk>, c: Chunk): seq<Chunk> {
    if chunks == [] || c.start < chunks[0].start then [c] + chunks
    else [chunks[0]] + InsertChunk(chunks[1..], c)
  }

  /** expand_heap and caml_add_to_heap: a new chunk holding one free block, in address order. */
  function ExpandHeap(s: State, c: Chunk): State
    requires c.start < c.limit
  {
    s.(chunks := InsertChunk(s.chunks, c),
       heap := s.heap[c.start := Block(Blue, false, Blank(c.limit - c.start - 1))],
       free := s.free + {c.start})
  }

  // ---------------------------------------------------------------- the collector

  function DarkenAll(s: State, order: seq<Addr>, rooms: seq<Room>): (t: State)
    requires |rooms| == |order| && forall r :: r in order ==> r in s.heap
    decreases |order|
  {
    if order == [] then s
    else
      var t := Darken(s, order[0], rooms[0]);
      assert t.heap.Keys == s.heap.Keys;
      DarkenAll(t, order[1..], rooms[1..])
  }

  /** start_cycle with the bytecode runtime's caml_darken_all_roots_start. */
  function BeginCycle(s: State, order: seq<Addr>, rooms: seq<Room>): State
    requires |rooms| == |order| && forall r :: r in order ==> r in s.heap
  {
    DarkenAll(s.(phase := Mark, subphase := MarkRoots, markhp := None), order, rooms)
  }

  /** One step of the loop of sweep_slice. */
  function SweepStep(s: State): State
    requires s.sweephp == s.chunk.limit || s.sweephp in s.heap
  {
    var h := s.sweephp;
    if h == s.chunk.limit then
      match ChunkAfter(s.chunks, s.chunk.start)
      case None => s.(phase := Idle)
      case Some(c) => s.(chunk := c, sweephp := c.start)
    else
      var b := s.heap[h];
      var t := s.(sweephp := End(s.heap, h));
      match b.color
      case White =>
        if b.fields == [] then t
        else t.(heap := s.heap[h := Block(Blue, false, Blank(|b.fields|))], free := s.free + {h})
      case Blue => t
      case Gray => t.(heap := s.heap[h := b.(color := White)])
      case Black => t.(heap := s.heap[h := b.(color := White)])
  }

  /** A free block or a header-only fragment, which the sweeper may merge with its neighbour. */
  predicate Mergeable(s: State, a: Addr) {
    a in s.heap && (a in s.free || s.heap[a].fields == [])
  }

  function Merge(s: State, low: Addr, high: Addr): State
    requires low in s.heap && high in s.heap
  {
    var n := |s.heap[low].fields| + 1 + |s.heap[high].fields|;
    s.(heap := (s.heap - {high})[low := Block(Blue, false, Blank(n))], free := s.free - {high} + {low})
  }

  // ---------------------------------------------------------------- events

  /** A white remnant that the sweeper will still meet need not be listed. */
  predicate Unswept(s: State, from: Addr, rest: Remnant) {
    s.phase == Sweep && s.sweephp <= from && rest.color == White
  }

  ghost predicate Enabled(s: State, e: Event) {
    match e
    case Modify(a, i, v, _) =>
      Slot(s, a, i) && Held(s, v) && (s.heap[a].fields[i].Ptr? ==> s.heap[a].fields[i].target in s.heap)
    case Initialize(a, i, v) =>
      && a in s.heap && a !in s.free && s.heap[a].scan && i < |s.heap[a].fields|
      && !s.heap[a].fields[i].Ptr? && Held(s, v)
    case Allocate(from, _, contents, rest) =>
      && from in s.free && from in s.heap && 0 < |contents| <= |s.heap[from].fields|
      && (forall v :: v in contents ==> Held(s, v))
      && (rest.color == White || rest.color == Blue)
      && (|contents| + 1 < |s.heap[from].fields| ==> rest.listed || Unswept(s, from, rest))
    case Expand(c) => c.start < c.limit && forall d :: d in s.chunks ==> d.limit <= c.start || c.limit <= d.start
    case Mutate(r) => forall a :: a in r ==> Reachable(s, a)
    case ClearRefTable =>
      forall a, i :: (a, i) in s.refTable && a in s.heap && s.heap[a].scan && 0 <= i < |s.heap[a].fields|
                     ==> !s.heap[a].fields[i].Young?
    case StartCycle(order, rooms) =>
      && s.phase == Idle && |rooms| == |order|
      && (forall r :: r in order <==> r in s.roots) && s.roots <= s.heap.Keys
    case MarkOne(_, _) => s.phase == Mark && Steppable(s)
    case SweepOne => s.phase == Sweep && (s.sweephp == s.chunk.limit || s.sweephp in s.heap)
    case Coalesce(low, high) =>
      && s.phase == Sweep && Mergeable(s, low) && Mergeable(s, high)
      && End(s.heap, low) == high && End(s.heap, high) <= s.sweephp
      && exists c :: c in s.chunks && c.start <= low && End(s.heap, high) <= c.limit
  }

  ghost function Apply(s: State, e: Event): State
    requires Enabled(s, e)
  {
    match e
    case Modify(a, i, v, room) => ModifySlot(s, a, i, v, room)
    case Initialize(a, i, v) => Remember(Write(s, a, i, v), a, i, v)
    case Allocate(from, scan, contents, rest) => AllocateFrom(s, from, scan, contents, rest)
    case Expand(c) => ExpandHeap(s, c)
    case Mutate(r) => s.(roots := r)
    case ClearRefTable => s.(refTable := {})
    case StartCycle(order, rooms) => BeginCycle(s, order, rooms)
    case MarkOne(room, dropped) => MarkStep(s, room, dropped)
    case SweepOne => SweepStep(s)
    case Coalesce(low, high) => Merge(s, low, high)
  }
}
