// The major heap as the incremental collector sees it: blocks laid out in
// chunks, their colours, the marker's registers, the sweeper's position and
// the remembered set.  Addresses count words; a block sits at the address of
// its header.  Pointer values name the block they point into.

module MajorHeap {
  import opened Basics

  type Addr = nat

  /** Imm: an integer or a pointer outside both heaps.  Young: a block of the minor heap. */
  datatype Value = Imm | Young(young: nat) | Ptr(target: Addr)

  /** `scan` is tag < No_scan_tag. */
  datatype Block = Block(color: Color, scan: bool, fields: seq<Value>)

  datatype Chunk = Chunk(start: Addr, limit: Addr)

  datatype Phase = Idle | Mark | Sweep

  datatype Subphase = MarkRoots | MarkMain | MarkFinal

  datatype State = State(
    heap: map<Addr, Block>,
    chunks: seq<Chunk>,
    roots: set<Addr>,
    free: set<Addr>,
    refTable: set<(Addr, nat)>,
    phase: Phase,
    subphase: Subphase,
    gray: seq<Addr>,
    graySize: nat,
    pure: bool,
    current: Option<Addr>,
    index: nat,
    markhp: Option<Addr>,
    chunk: Chunk,
    sweephp: Addr)

  /** Address just past a block: its header word and its fields. */
  function End(heap: map<Addr, Block>, a: Addr): Addr
    requires a in heap
  {
    a + 1 + |heap[a].fields|
  }

  // ---------------------------------------------------------------- layout

  /** Blocks do not overlap. */
  ghost predicate Disjoint(heap: map<Addr, Block>) {
    forall a, b :: a in heap && b in heap && a < b ==> End(heap, a) <= b
  }

  /** No block straddles address `h`. */
  ghost predicate Boundary(heap: map<Addr, Block>, h: Addr) {
    forall a :: a in heap && a < h ==> End(heap, a) <= h
  }

  ghost predicate Sorted(chunks: seq<Chunk>) {
    && (forall i :: 0 <= i < |chunks| ==> chunks[i].start < chunks[i].limit)
    && forall i, j :: 0 <= i < j < |chunks| ==> chunks[i].limit <= chunks[j].start
  }

  /** Block `a` of chunk `c` is followed by another block or by the end of the chunk. */
  ghost predicate Follows(heap: map<Addr, Block>, c: Chunk, a: Addr)
    requires a in heap
  {
    End(heap, a) == c.limit || (End(heap, a) < c.limit && End(heap, a) in heap)
  }

  ghost predicate Covered(chunks: seq<Chunk>, a: Addr) {
    exists c :: c in chunks && c.start <= a < c.limit
  }

  /** Each chunk is tiled by blocks, and every block lies in a chunk. */
  ghost predicate Tiled(heap: map<Addr, Block>, chunks: seq<Chunk>) {
    && (forall c :: c in chunks ==> c.start in heap)
    && (forall c, a {:trigger Follows(heap, c, a)} :: c in chunks && a in heap && c.start <= a < c.limit ==> Follows(heap, c, a))
    && forall a {:trigger Covered(chunks, a)} :: a in heap ==> Covered(chunks, a)
  }

  ghost predicate Layout(s: State) {
    && |s.chunks| > 0 && Sorted(s.chunks)
    && Disjoint(s.heap) && Tiled(s.heap, s.chunks)
    && s.free <= s.heap.Keys
  }

  /** Chunk_next: the first chunk after address `h` in the sorted chunk list. */
  function ChunkAfter(chunks: seq<Chunk>, h: Addr): (r: Option<Chunk>)
    ensures r.Some? ==> r.value in chunks && h < r.value.start
    ensures r.None? ==> forall c :: c in chunks ==> c.start <= h
  {
    if chunks == [] then None
    else if h < chunks[0].start then Some(chunks[0])
    else ChunkAfter(chunks[1..], h)
  }

  /** In a sorted chunk list no chunk starts between `h` and the one returned. */
  lemma {:induction false} ChunkAfterIsNext(chunks: seq<Chunk>, h: Addr)
    requires Sorted(chunks)
    ensures ChunkAfter(chunks, h).Some? ==>
              forall c :: c in chunks && h < c.start ==> ChunkAfter(chunks, h).value.start <= c.start
  {
    if chunks != [] && chunks[0].start <= h {
      ChunkAfterIsNext(chunks[1..], h);
    }
  }

  // ---------------------------------------------------------------- reachability

  /** Block `b` is the value of some scanned field of block `a`. */
  ghost predicate Edge(heap: map<Addr, Block>, a: Addr, b: Addr) {
    a in heap && heap[a].scan && Ptr(b) in heap[a].fields
  }

  ghost predicate Path(s: State, p: seq<Addr>) {
    && p != [] && p[0] in s.roots
    && forall i :: 0 <= i < |p| - 1 ==> Edge(s.heap, p[i], p[i + 1])
  }

  ghost predicate Reachable(s: State, a: Addr) {
    exists p :: Path(s, p) && p[|p| - 1] == a
  }

  // ---------------------------------------------------------------- the cut invariant

  /** `keep` contains the roots and is closed under the scanned fields of its blocks. */
  ghost predicate Closed(s: State, keep: set<Addr>) {
    && s.roots <= keep && keep <= s.heap.Keys && keep !! s.free
    && forall a :: a in keep ==> s.heap[a].color != Blue && |s.heap[a].fields| > 0 && KeptFields(s.heap[a], keep)
  }

  ghost predicate KeptFields(b: Block, keep: set<Addr>) {
    b.scan ==> forall i :: 0 <= i < |b.fields| && b.fields[i].Ptr? ==> b.fields[i].target in keep
  }

  /** Every major slot holding a young pointer is in the remembered set. */
  ghost predicate Remembered(s: State, keep: set<Addr>) {
    forall a, i :: a in keep && a in s.heap && s.heap[a].scan && 0 <= i < |s.heap[a].fields| && s.heap[a].fields[i].Young?
                   ==> (a, i) in s.refTable
  }

  ghost function Whites(s: State, keep: set<Addr>): set<Addr> {
    set a | a in keep && a in s.heap && s.heap[a].color == White
  }

  /** Field `i` of `p` has still to be scanned by the marker. */
  ghost predicate Unscanned(s: State, p: Addr, i: nat) {
    && p in s.heap && s.heap[p].scan && i < |s.heap[p].fields|
    && (s.heap[p].color == White || (s.heap[p].color == Gray && (s.current == Some(p) ==> s.index <= i)))
  }

  /** An unscanned field of a kept block outside `x` points into `x`. */
  ghost predicate EntersAt(s: State, keep: set<Addr>, x: set<Addr>, p: Addr, i: nat) {
    && p in keep && p !in x && Unscanned(s, p, i)
    && s.heap[p].fields[i].Ptr? && s.heap[p].fields[i].target in x
  }

  ghost predicate Entered(s: State, keep: set<Addr>, x: set<Addr>) {
    exists p, i :: EntersAt(s, keep, x, p, i)
  }

  /** Every non-empty set of white kept blocks is entered from outside by an unscanned field,
      or contains a root that has not been darkened yet. */
  ghost predicate Protected(s: State, keep: set<Addr>, pending: set<Addr>) {
    forall x: set<Addr> :: x != {} && x <= Whites(s, keep) ==> Entered(s, keep, x) || x * pending != {}
  }

  // ---------------------------------------------------------------- phase invariants

  /** Gray blocks are pending on the stack, being scanned, or still ahead of the heap scan. */
  ghost predicate PureHeap(s: State) {
    forall a :: a in s.heap && s.heap[a].color == Gray
                ==> a in s.gray || s.current == Some(a) || (s.markhp.Some? && s.markhp.value <= a)
  }

  ghost predicate MarkerState(s: State) {
    && Distinct(s.gray) && (forall a :: a in s.gray ==> a in s.heap && s.heap[a].color == Gray)
    && (s.current.Some? ==> s.current.value in s.heap && s.heap[s.current.value].color == Gray
                            && s.current.value !in s.gray && s.index <= |s.heap[s.current.value].fields|)
    && (s.current.None? ==> s.index == 0)
    && (s.markhp.Some? ==> s.chunk in s.chunks && s.chunk.start <= s.markhp.value <= s.chunk.limit
                           && Boundary(s.heap, s.markhp.value)
                           && (s.markhp.value == s.chunk.limit || s.markhp.value in s.heap))
    && (s.pure ==> PureHeap(s))
  }

  ghost predicate Quiet(s: State) {
    s.gray == [] && s.current.None? && s.index == 0 && s.markhp.None? && s.pure
  }

  ghost predicate SweepState(s: State, keep: set<Addr>) {
    && s.chunk in s.chunks && s.chunk.start <= s.sweephp <= s.chunk.limit
    && Boundary(s.heap, s.sweephp) && (s.sweephp == s.chunk.limit || s.sweephp in s.heap)
    && (forall a :: a in s.heap && a < s.sweephp ==> s.heap[a].color == White || s.heap[a].color == Blue)
    && forall a :: a in s.heap && s.sweephp <= a ==> s.heap[a].color != Gray && (s.heap[a].color == Black <==> a in keep)
  }

  /** What holds in every phase. */
  ghost predicate Common(s: State, keep: set<Addr>) {
    && Layout(s) && Closed(s, keep) && Remembered(s, keep) && s.graySize >= 2
    && forall a :: a in s.heap && (s.heap[a].color == Gray || s.heap[a].color == Black) ==> a in keep
  }

  ghost predicate MarkInv(s: State, keep: set<Addr>, pending: set<Addr>) {
    Common(s, keep) && MarkerState(s) && Protected(s, keep, pending) && |s.gray| < s.graySize
  }

  ghost predicate Inv(s: State, keep: set<Addr>) {
    && Common(s, keep)
    && match s.phase
       case Idle => Quiet(s) && forall a :: a in s.heap ==> s.heap[a].color == White || s.heap[a].color == Blue
       case Mark => MarkInv(s, keep, {})
       case Sweep => Quiet(s) && SweepState(s, keep)
  }
}
