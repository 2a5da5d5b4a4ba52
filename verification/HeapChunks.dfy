// The heap of the compactor (compact.c): chunks tiled by blocks, and the words
// that the second pass finds while it inverts pointers.

module HeapChunks {
  import opened Threading
  import opened Inversion
  import A = CompactAlloc

  const STRING_TAG: nat := 252
  const NO_SCAN_TAG: nat := 251

  // ---------------------------------------------------------------- lemmas on words

  /** A slot that has not been inverted holds what it held; an infix header never looks like a pointer. */
  lemma WordAt(mem: Memory, l: Layout, orig: Memory, th: Threads, done: set<Addr>, p: Addr)
    requires Inv(mem, l, orig, th, done) && p in orig && !IsHeader(l, p)
    ensures p in mem
    ensures IsInfixHeader(l, p) ==> p !in done && !mem[p].Ptr?
    ensures !IsInfixHeader(l, p) && p !in done ==> mem[p] == orig[p]
  {
    assert SlotInv(mem, l, orig, th, done, p);
    if IsInfixHeader(l, p) {
      assert TargetOk(l, p + 1);
      var v := l.base[p + 1];
      var off := p + 1 - v;
      assert BlockInv(mem, l, orig, th, done, v) && BlockOk(l, v);
      assert p == InfixAt(v, off);
      if off in th[v].order {
        InfixHead(mem, v, th[v].order, th[v], Ehd(l.blocks[v].size, l.blocks[v].tag), off);
      }
    }
  }

  /** Slots that do not point into the heap stay as they are. */
  lemma SkipSlot(mem: Memory, l: Layout, orig: Memory, th: Threads, done: set<Addr>, p: Addr)
    requires Inv(mem, l, orig, th, done) && p in orig && !IsHeader(l, p) && !IsInfixHeader(l, p) && p !in done
             && !Points(l, orig, p)
    ensures Inv(mem, l, orig, th, done + {p})
  {
    forall v | v in l.blocks ensures BlockInv(mem, l, orig, th, done + {p}, v) { assert BlockInv(mem, l, orig, th, done, v); }
    forall a | a in orig ensures SlotInv(mem, l, orig, th, done + {p}, a) { assert SlotInv(mem, l, orig, th, done, a); }
  }

  /** What the header of a block in the course of inversion looks like. */
  lemma HeaderWord(mem: Memory, l: Layout, orig: Memory, th: Threads, done: set<Addr>, v: Addr)
    requires Inv(mem, l, orig, th, done) && v in l.blocks
    ensures v > 0 && v - 1 in mem && (mem[v - 1].Ptr? || mem[v - 1].Ehd?)
    ensures BlockInv(mem, l, orig, th, done, v) && BlockOk(l, v)
  {
    assert BlockInv(mem, l, orig, th, done, v) && BlockOk(l, v);
  }

  /** What the header of an infix position looks like. */
  lemma InfixWord(mem: Memory, l: Layout, orig: Memory, th: Threads, done: set<Addr>, v: Addr, off: nat)
    requires Inv(mem, l, orig, th, done) && v in l.blocks && off in l.blocks[v].infix
    ensures v > 0 && off >= 2 && v in th && InfixAt(v, off) in mem
    ensures if off in th[v].order then mem[InfixAt(v, off)].InvInfix? else mem[InfixAt(v, off)] == InfixHd(off)
  {
    assert BlockInv(mem, l, orig, th, done, v) && BlockOk(l, v);
    if off in th[v].order {
      InfixHead(mem, v, th[v].order, th[v], Ehd(l.blocks[v].size, l.blocks[v].tag), off);
    }
  }

  // ---------------------------------------------------------------- the first pass

  /** A block before compaction: a free one is blue, and the layout has it with a string tag. */
  ghost predicate RawAt(l: Layout, m: Memory, v: Addr)
    requires v in l.blocks
  {
    var b := l.blocks[v];
    && v > 0 && v - 1 in m && m[v - 1].Hd? && m[v - 1].hsize == b.size
    && (if m[v - 1].blue then b.tag == STRING_TAG && b.infix == {} else m[v - 1].htag == b.tag)
    && forall off :: off in b.infix ==> off > 0 && InfixAt(v, off) in m && m[InfixAt(v, off)] == InfixHd(off)
  }

  ghost predicate Raw(l: Layout, m: Memory) {
    forall v {:trigger RawAt(l, m, v)} :: v in l.blocks ==> RawAt(l, m, v)
  }

  /** The headers below word `k` encoded. */
  ghost function Encoded(l: Layout, m: Memory, k: Addr): Memory {
    map a | a in m :: if a < k && a + 1 in l.blocks then Ehd(l.blocks[a + 1].size, l.blocks[a + 1].tag) else m[a]
  }

  lemma EncodedIsSource(l: Layout, m: Memory, k: Addr)
    requires GoodLayout(l) && Raw(l, m) && forall v :: v in l.blocks ==> v <= k
    ensures Source(l, Encoded(l, m, k))
  {
    forall v | v in l.blocks ensures SourceAt(l, Encoded(l, m, k), v) {
      assert RawAt(l, m, v) && BlockOk(l, v);
      forall off | off in l.blocks[v].infix ensures !IsHeader(l, InfixAt(v, off)) {
        assert v + off in l.blocks ==> BlockOk(l, v + off);
      }
    }
  }

  // ---------------------------------------------------------------- the heap as chunks of blocks

  ghost predicate InHeap(l: Layout, orig: Memory, v: Addr)
    requires v in l.blocks
  {
    v > 0 && forall a :: v - 1 <= a < v + l.blocks[v].size ==> a in orig
  }

  ghost predicate Next(l: Layout, v: Addr, end: Addr)
    requires v in l.blocks
  {
    v + l.blocks[v].size == end || (v + l.blocks[v].size < end && v + l.blocks[v].size + 1 in l.blocks)
  }

  /** The blocks of chunk `c` follow each other from its start to its end. */
  ghost predicate ChunkOk(l: Layout, c: A.Chunk) {
    && c.start + 1 in l.blocks
    && forall v {:trigger Next(l, v, c.start + c.size)} :: v in l.blocks && c.start < v <= c.start + c.size ==> Next(l, v, c.start + c.size)
  }

  ghost predicate Within(cs: seq<A.Chunk>, v: Addr, i: int) {
    0 <= i < |cs| && cs[i].start < v <= cs[i].start + cs[i].size
  }

  ghost predicate Housed(cs: seq<A.Chunk>, v: Addr) {
    exists i :: Within(cs, v, i)
  }

  ghost predicate HeapOk(l: Layout, orig: Memory, cs: seq<A.Chunk>) {
    && A.GoodChunks(cs)
    && (forall v {:trigger InHeap(l, orig, v)} :: v in l.blocks ==> InHeap(l, orig, v))
    && (forall i {:trigger ChunkOk(l, cs[i])} :: 0 <= i < |cs| ==> ChunkOk(l, cs[i]))
    && forall v {:trigger Housed(cs, v)} :: v in l.blocks ==> Housed(cs, v)
  }

  /** Roots are slots outside the heap. */
  ghost predicate RootsOk(l: Layout, orig: Memory, roots: set<Addr>) {
    forall r :: r in roots ==> r in orig && !IsHeader(l, r) && !IsInfixHeader(l, r)
                               && forall v :: v in l.blocks ==> r + 1 < v || r >= v + l.blocks[v].size
  }

  /** A slot of a block that is scanned. */
  ghost predicate FieldOf(l: Layout, v: Addr, a: Addr) {
    v in l.blocks && v <= a < v + l.blocks[v].size && l.blocks[v].tag < NO_SCAN_TAG && !IsInfixHeader(l, a)
  }

  ghost predicate IsField(l: Layout, a: Addr) {
    exists v: Addr :: FieldOf(l, v, a)
  }

  /** The slots inverted when the pass has reached word `k`. */
  ghost predicate DoneUpTo(l: Layout, roots: set<Addr>, done: set<Addr>, k: Addr) {
    forall a: Addr :: a in done <==> a in roots || (a < k && IsField(l, a))
  }

  lemma WordsOfBlock(l: Layout, orig: Memory, cs: seq<A.Chunk>, v: Addr)
    requires GoodLayout(l) && HeapOk(l, orig, cs) && v in l.blocks
    ensures v > 0 && forall a :: v <= a < v + l.blocks[v].size ==> a in orig && !IsHeader(l, a)
    ensures forall a: Addr :: v <= a < v + l.blocks[v].size ==> (IsField(l, a) <==> l.blocks[v].tag < NO_SCAN_TAG && !IsInfixHeader(l, a))
  {
    assert InHeap(l, orig, v) && BlockOk(l, v);
    forall a | v <= a < v + l.blocks[v].size ensures !IsHeader(l, a) {
      assert a + 1 in l.blocks ==> Separate(l, v, a + 1);
    }
    forall a: Addr | v <= a < v + l.blocks[v].size
      ensures IsField(l, a) <==> l.blocks[v].tag < NO_SCAN_TAG && !IsInfixHeader(l, a)
    {
      if IsField(l, a) {
        var w: Addr :| FieldOf(l, w, a);
        assert w < v ==> Separate(l, w, v);
        assert v < w ==> Separate(l, v, w);
      } else {
        assert !FieldOf(l, v, a);
      }
    }
  }

  lemma HeaderIsNoField(l: Layout, v: Addr)
    requires GoodLayout(l) && v in l.blocks
    ensures v > 0 && !IsField(l, v - 1)
  {
    assert BlockOk(l, v);
    var h: Addr := v - 1;
    forall w: Addr ensures !FieldOf(l, w, h) {
      if w in l.blocks && w < v { assert Separate(l, w, v); }
    }
  }

  ghost predicate InChunk(cs: seq<A.Chunk>, a: Addr, i: int) {
    0 <= i < |cs| && cs[i].start < a < cs[i].start + cs[i].size
  }

  lemma NextBlock(l: Layout, c: A.Chunk, v: Addr)
    requires ChunkOk(l, c) && v in l.blocks && c.start < v <= c.start + c.size
    ensures Next(l, v, c.start + c.size)
  {
  }

  /** Every slot of the heap lies in some chunk. */
  lemma FieldWithin(l: Layout, orig: Memory, cs: seq<A.Chunk>, a: Addr)
    requires GoodLayout(l) && HeapOk(l, orig, cs) && IsField(l, a)
    ensures exists i :: InChunk(cs, a, i)
  {
    var v: Addr :| FieldOf(l, v, a);
    assert Housed(cs, v);
    var i :| Within(cs, v, i);
    assert ChunkOk(l, cs[i]);
    NextBlock(l, cs[i], v);
    assert InChunk(cs, a, i);
  }

  lemma ChunkOrder(cs: seq<A.Chunk>, i: nat, j: nat)
    requires A.GoodChunks(cs) && i < j < |cs|
    ensures cs[i].start + cs[i].size < cs[j].start
  {
  }

  /** No slot lies between the end of one chunk and the start of the next. */
  lemma NoFieldOutside(l: Layout, orig: Memory, cs: seq<A.Chunk>, i: nat, end: Addr)
    requires GoodLayout(l) && HeapOk(l, orig, cs) && i < |cs|
             && end == if i == 0 then 0 else cs[i - 1].start + cs[i - 1].size
    ensures forall a: Addr :: end <= a < cs[i].start ==> !IsField(l, a)
  {
    forall a: Addr | IsField(l, a) ensures a < end || a >= cs[i].start {
      FieldWithin(l, orig, cs, a);
      var j :| InChunk(cs, a, j);
      if j < i - 1 { ChunkOrder(cs, j, i - 1); }
      if i < j { ChunkOrder(cs, i, j); }
    }
  }

  lemma NoFieldBeyond(l: Layout, orig: Memory, cs: seq<A.Chunk>)
    requires GoodLayout(l) && HeapOk(l, orig, cs)
    ensures forall a: Addr :: IsField(l, a) ==> a < cs[|cs| - 1].start + cs[|cs| - 1].size
  {
    forall a: Addr | IsField(l, a) ensures a < cs[|cs| - 1].start + cs[|cs| - 1].size {
      FieldWithin(l, orig, cs, a);
      var j :| InChunk(cs, a, j);
    }
  }
}
