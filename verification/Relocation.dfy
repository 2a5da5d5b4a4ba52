// Pass 4 of compaction (compact.c) moves the surviving blocks; with the passes
// before it, every slot ends up with the new address of what it pointed to.

module Relocation {
  import opened Threading
  import opened Inversion
  import opened HeapChunks
  import opened Placement
  import opened Reversion
  import A = CompactAlloc

  /** memmove of `n` words. */
  function Memmove(m: Memory, dst: Addr, src: Addr, n: nat): Memory
    requires forall a :: src <= a < src + n ==> a in m
  {
    map a | a in m :: if dst <= a < dst + n then m[src + (a - dst)] else m[a]
  }

  /** Where word `a` of the new place of block `v` comes from. */
  function From(plan: map<Addr, Addr>, v: Addr, a: Addr): Addr
    requires v in plan
  {
    if plan[v] <= v + a then v + a - plan[v] else 0
  }

  ghost predicate Mapped(cs: seq<A.Chunk>, m: Memory) {
    forall a: Addr {:trigger InSomeChunk(cs, a)} :: InSomeChunk(cs, a) ==> a in m
  }

  /** Word `a` of the new place of block `v` holds what it held in the old place. */
  ghost predicate Arrived(before: Memory, mem: Memory, plan: map<Addr, Addr>, v: Addr, a: Addr)
    requires v in plan
  {
    a in mem && From(plan, v, a) in before && mem[a] == before[From(plan, v, a)]
  }

  /** Pass 4 has reached word `p`: what lies behind it is not touched, and what lies before it has moved. */
  ghost predicate Moving(before: Memory, mem: Memory, l: Layout, cs: seq<A.Chunk>, plan: map<Addr, Addr>, p: Addr,
      s: A.State) {
    && mem.Keys == before.Keys
    && (forall a {:trigger mem[a]} :: a in mem && (p <= a || !InSomeChunk(cs, a)) ==> mem[a] == before[a])
    && forall v: Addr, a: Addr {:trigger Dest(l, plan, v, a)} :: Dest(l, plan, v, a) && v <= p ==> Arrived(before, mem, plan, v, a) && A.Used(cs, s, a)
  }

  /** The next block is moved: its words have not been overwritten, and its new place holds none that
      moved before. */
  lemma MoveStep(before: Memory, mem: Memory, l: Layout, cs: seq<A.Chunk>, plan: map<Addr, Addr>, p: Addr, s: A.State,
      s': A.State, size: nat)
    requires Moving(before, mem, l, cs, plan, p, s) && p + 1 in l.blocks && p + 1 in plan
             && l.blocks[p + 1].size == size
    requires Mapped(cs, mem) && Behind(plan, p + 1)
    requires forall a :: p <= a < p + 1 + size ==> a in mem
    requires forall v: Addr :: v in l.blocks && p + 1 < v ==> p + 1 + size < v
    requires forall a: Addr :: plan[p + 1] - 1 <= a < plan[p + 1] + size ==> !A.Used(cs, s, a) && InSomeChunk(cs, a)
    requires forall a: Addr :: A.Used(cs, s', a) <==> A.Used(cs, s, a) || plan[p + 1] - 1 <= a < plan[p + 1] + size
    ensures Moving(before, Memmove(mem, plan[p + 1] - 1, p, size + 1), l, cs, plan, p + 1 + size, s')
  {
    var mem' := Memmove(mem, plan[p + 1] - 1, p, size + 1);
    forall v: Addr, a: Addr | Dest(l, plan, v, a) && v <= p + 1 + size ensures Arrived(before, mem', plan, v, a) && A.Used(cs, s', a) {
      if v == p + 1 {
        assert InSomeChunk(cs, a);
        assert mem[p + (a - (plan[p + 1] - 1))] == before[p + (a - (plan[p + 1] - 1))];
      } else {
        assert Arrived(before, mem, plan, v, a) && A.Used(cs, s, a);
      }
    }
  }

  lemma SkipStep(before: Memory, mem: Memory, l: Layout, cs: seq<A.Chunk>, plan: map<Addr, Addr>, p: Addr, next: Addr,
      s: A.State)
    requires Moving(before, mem, l, cs, plan, p, s) && p <= next
    requires forall v: Addr :: v in plan && v in l.blocks && p < v ==> next < v
    ensures Moving(before, mem, l, cs, plan, next, s)
  {
    forall v: Addr, a: Addr | Dest(l, plan, v, a) && v <= next ensures Arrived(before, mem, plan, v, a) && A.Used(cs, s, a) {
      assert v <= p;
    }
  }

  // ---------------------------------------------------------------- the whole compaction

  /** A word that points to a block, or to an infix position in it, follows it to its new place. */
  function NewWord(l: Layout, plan: map<Addr, Addr>, w: Word): Word {
    if w.Ptr? && w.a in l.base && l.base[w.a] in plan && l.base[w.a] <= w.a then Ptr(plan[l.base[w.a]] + (w.a - l.base[w.a])) else w
  }

  /** Slot `p` holds a pointer to block `v` or into it. */
  ghost predicate PointsTo(l: Layout, m: Memory, p: Addr, v: Addr) {
    Points(l, m, p) && l.base[m[p].a] == v
  }

  ghost predicate Pointed(l: Layout, m: Memory, roots: set<Addr>, v: Addr) {
    exists p: Addr :: (p in roots || IsField(l, p)) && PointsTo(l, m, p, v)
  }

  /** The word at offset `i` of a block that has moved. */
  ghost predicate WordMoved(l: Layout, m: Memory, final: Memory, plan: map<Addr, Addr>, v: Addr, i: nat)
    requires v in plan
  {
    v + i in m && plan[v] + i in final && final[plan[v] + i] == if IsField(l, v + i) then NewWord(l, plan, m[v + i]) else m[v + i]
  }

  ghost predicate BlockMoved(l: Layout, m: Memory, final: Memory, plan: map<Addr, Addr>, v: Addr)
    requires v in plan && v in l.blocks
  {
    var b := l.blocks[v];
    && plan[v] > 0 && plan[v] - 1 in final && final[plan[v] - 1] == Hd(b.size, b.tag, false)
    && forall i: nat {:trigger WordMoved(l, m, final, plan, v, i)} :: i < b.size ==> WordMoved(l, m, final, plan, v, i)
  }

  /** Word `a` is neither in the heap nor a root. */
  ghost predicate Outside(cs: seq<A.Chunk>, roots: set<Addr>, m: Memory, a: Addr) {
    a in m && !InSomeChunk(cs, a) && a !in roots
  }

  /** Compaction from `m` to `final`: exactly the blocks with pointers to them survive, apart from each
      other; every slot and every root holds the new address of what it pointed to. */
  ghost predicate Compacted(l: Layout, cs: seq<A.Chunk>, roots: set<Addr>, m: Memory, final: Memory, plan: map<Addr,
      Addr>) {
    && (forall v: Addr :: v in plan <==> v in l.blocks && Pointed(l, m, roots, v))
    && (forall v {:trigger BlockMoved(l, m, final, plan, v)} :: v in plan ==> BlockMoved(l, m, final, plan, v))
    && (forall r :: r in roots ==> r in m && r in final && final[r] == NewWord(l, plan, m[r]))
    && (forall a {:trigger Outside(cs, roots, m, a)} :: Outside(cs, roots, m, a) ==> a in final && final[a] == m[a])
    && (forall v: Addr, w: Addr, a: Addr {:trigger Dest(l, plan, v, a), Dest(l, plan, w, a)} :: Dest(l, plan, v, a) && Dest(l, plan, w, a) ==> v == w)
    && (forall v: Addr, a: Addr {:trigger Dest(l, plan, v, a)} :: Dest(l, plan, v, a) ==> InSomeChunk(cs, a))
    && forall v {:trigger Behind(plan, v)} :: v in plan ==> Behind(plan, v)
  }

  // ---------------------------------------------------------------- survivors

  /** The blocks that keep their place in the plan are those some slot points to. */
  lemma LiveIsPointed(l: Layout, orig: Memory, th: Threads, done: set<Addr>, roots: set<Addr>, v: Addr)
    requires Inverted(l, orig, th, done) && v in l.blocks
    requires forall a: Addr :: a in done <==> a in roots || IsField(l, a)
    requires forall r :: r in roots ==> !IsHeader(l, r) && !IsInfixHeader(l, r)
    ensures v in Live(l, th) <==> Pointed(l, orig, roots, v)
  {
    assert ThreadsAt(l, orig, th, done, v);
    if v in Live(l, th) {
      var off := if Slots(th[v], 0) != [] then 0 else th[v].order[0];
      assert Slots(th[v], off) != [];
      HasElement(Slots(th[v], off));
      var p: Addr :| p in Slots(th[v], off);
      assert BlockOk(l, v);
      assert PointsTo(l, orig, p, v);
    } else {
      forall p: Addr | p in roots || IsField(l, p) ensures !PointsTo(l, orig, p, v) {
        FieldIsNoHeader(l, p);
        assert Thread2(l, orig, th, done, p);
      }
    }
  }

  lemma FieldIsNoHeader(l: Layout, p: Addr)
    requires GoodLayout(l)
    ensures IsField(l, p) ==> !IsHeader(l, p) && !IsInfixHeader(l, p)
  {
    if IsField(l, p) {
      var v: Addr :| FieldOf(l, v, p);
      assert p + 1 in l.blocks ==> Separate(l, v, p + 1);
    }
  }

  // ---------------------------------------------------------------- after pass 3

  /** A slot that was inverted holds the new address of what it pointed to. */
  lemma SlotAfterRevert(mem: Memory, l: Layout, orig: Memory, th: Threads, done: set<Addr>, plan: map<Addr, Addr>,
      k: Addr, p: Addr)
    requires Reverting(mem, l, orig, th, done, plan, k) && (forall v :: v in l.blocks ==> v <= k)
    requires p in orig && p in done && !IsHeader(l, p) && !IsInfixHeader(l, p)
    ensures p in mem && mem[p] == NewWord(l, plan, orig[p])
  {
    if Points(l, orig, p) {
      assert Thread2(l, orig, th, done, p) && TargetOk(l, orig[p].a);
      var v := l.base[orig[p].a];
      assert StateOf(mem, l, orig, th, done, plan, k, v);
      assert p in Slots(th[v], orig[p].a - v);
    } else {
      assert Loose(l, orig, done, p);
    }
  }

  lemma RawSlotAfterRevert(mem: Memory, l: Layout, orig: Memory, th: Threads, done: set<Addr>, plan: map<Addr, Addr>,
      k: Addr, p: Addr)
    requires Reverting(mem, l, orig, th, done, plan, k) && (forall v :: v in l.blocks ==> v <= k) && Source(l, orig)
    requires p in orig && p !in done && !IsHeader(l, p)
    ensures p in mem && mem[p] == orig[p]
  {
    if IsInfixHeader(l, p) {
      assert TargetOk(l, p + 1);
      var v := l.base[p + 1];
      var off := p + 1 - v;
      assert StateOf(mem, l, orig, th, done, plan, k, v) && SourceAt(l, orig, v);
      assert off in l.blocks[v].infix && p == InfixAt(v, off);
    } else {
      assert Loose(l, orig, done, p);
    }
  }

  /** What pass 4 needs of the headers that pass 3 rebuilt. */
  ghost predicate DecodedAt(mid: Memory, l: Layout, plan: map<Addr, Addr>, v: Addr)
    requires v in l.blocks
  {
    v > 0 && v - 1 in mid && mid[v - 1] == Hd(l.blocks[v].size, l.blocks[v].tag, v !in plan)
  }

  ghost predicate Decoded(mid: Memory, l: Layout, plan: map<Addr, Addr>) {
    GoodLayout(l) && forall v {:trigger DecodedAt(mid, l, plan, v)} :: v in l.blocks ==> DecodedAt(mid, l, plan, v)
  }

  lemma RevertedIsDecoded(mid: Memory, l: Layout, orig: Memory, th: Threads, done: set<Addr>, plan: map<Addr, Addr>,
      k: Addr)
    requires Reverting(mid, l, orig, th, done, plan, k) && forall v :: v in l.blocks ==> v <= k
    ensures Decoded(mid, l, plan) && mid.Keys == orig.Keys
  {
    forall v | v in l.blocks ensures DecodedAt(mid, l, plan, v) {
      assert StateOf(mid, l, orig, th, done, plan, k, v);
    }
  }

  // ---------------------------------------------------------------- after pass 4

  ghost predicate RootsApart(l: Layout, cs: seq<A.Chunk>, m: Memory, roots: set<Addr>) {
    forall r :: r in roots ==> r in m && !IsHeader(l, r) && !IsInfixHeader(l, r) && !InSomeChunk(cs, r)
  }

  /** What the passes leave: `mid` after the third, `final` after the fourth. */
  ghost predicate Passed(l: Layout, cs: seq<A.Chunk>, roots: set<Addr>, orig: Memory, mid: Memory, final: Memory,
      th: Threads, done: set<Addr>, plan: map<Addr, Addr>, k: Addr, s: A.State) {
    && HeapOk(l, orig, cs) && Source(l, orig) && RootsApart(l, cs, orig, roots)
    && Reverting(mid, l, orig, th, done, plan, k) && Moving(mid, final, l, cs, plan, k, s)
    && (forall v :: v in l.blocks ==> v <= k)
    && (forall a: Addr :: a in done <==> a in roots || IsField(l, a))
  }

  lemma WordArrives(l: Layout, cs: seq<A.Chunk>, roots: set<Addr>, orig: Memory, mid: Memory, final: Memory,
      th: Threads, done: set<Addr>, plan: map<Addr, Addr>, k: Addr, s: A.State, v: Addr, i: nat)
    requires Passed(l, cs, roots, orig, mid, final, th, done, plan, k, s)
    requires v in plan && v in l.blocks && i < l.blocks[v].size && (v + i in roots ==> IsField(l, v + i))
    ensures WordMoved(l, orig, final, plan, v, i)
  {
    WordsOfBlock(l, orig, cs, v);
    FieldIsNoHeader(l, v + i);
    if IsField(l, v + i) {
      SlotAfterRevert(mid, l, orig, th, done, plan, k, v + i);
    } else {
      RawSlotAfterRevert(mid, l, orig, th, done, plan, k, v + i);
    }
    assert Dest(l, plan, v, plan[v] + i);
    assert Arrived(mid, final, plan, v, plan[v] + i);
  }

  lemma BlockArrives(l: Layout, cs: seq<A.Chunk>, roots: set<Addr>, orig: Memory, mid: Memory, final: Memory,
      th: Threads, done: set<Addr>, plan: map<Addr, Addr>, k: Addr, s: A.State, v: Addr)
    requires Passed(l, cs, roots, orig, mid, final, th, done, plan, k, s)
    requires v in plan && v in l.blocks && Behind(plan, v)
    ensures BlockMoved(l, orig, final, plan, v)
  {
    assert StateOf(mid, l, orig, th, done, plan, k, v);
    assert Dest(l, plan, v, plan[v] - 1);
    assert Arrived(mid, final, plan, v, plan[v] - 1);
    forall i: nat | i < l.blocks[v].size ensures WordMoved(l, orig, final, plan, v, i) {
      NoRootInside(l, orig, cs, roots, v, v + i);
      WordArrives(l, cs, roots, orig, mid, final, th, done, plan, k, s, v, i);
    }
  }

  lemma NoRootInside(l: Layout, orig: Memory, cs: seq<A.Chunk>, roots: set<Addr>, v: Addr, a: Addr)
    requires GoodLayout(l) && HeapOk(l, orig, cs) && RootsApart(l, cs, orig, roots) && v in l.blocks
             && v <= a < v + l.blocks[v].size
    ensures a !in roots && InSomeChunk(cs, a)
  {
    assert Housed(cs, v);
    var i :| Within(cs, v, i);
    assert ChunkOk(l, cs[i]);
    NextBlock(l, cs[i], v);
  }

  /** The four passes together. */
  lemma CompactionDone(l: Layout, cs: seq<A.Chunk>, roots: set<Addr>, orig: Memory, mid: Memory, final: Memory,
      th: Threads, done: set<Addr>, plan: map<Addr, Addr>, k: Addr, p: Addr, s: A.State, s0: A.State)
    requires Passed(l, cs, roots, orig, mid, final, th, done, plan, k, s)
    requires GoodPlan(l, cs, Live(l, th), p, s0, plan)
             && forall v: Addr :: v in plan <==> v in Live(l, th) && v in l.blocks
    ensures Compacted(l, cs, roots, orig, final, plan)
  {
    forall v: Addr ensures v in plan <==> v in l.blocks && Pointed(l, orig, roots, v) {
      if v in l.blocks { LiveIsPointed(l, orig, th, done, roots, v); }
    }
    forall v | v in plan ensures BlockMoved(l, orig, final, plan, v) {
      assert Behind(plan, v);
      BlockArrives(l, cs, roots, orig, mid, final, th, done, plan, k, s, v);
    }
    forall r | r in roots ensures r in orig && r in final && final[r] == NewWord(l, plan, orig[r]) {
      SlotAfterRevert(mid, l, orig, th, done, plan, k, r);
    }
    forall a | Outside(cs, roots, orig, a) ensures a in final && final[a] == orig[a] {
      HeapWordInChunk(l, orig, cs, a);
      RawSlotAfterRevert(mid, l, orig, th, done, plan, k, a);
    }
  }

  lemma HeapWordInChunk(l: Layout, orig: Memory, cs: seq<A.Chunk>, a: Addr)
    requires GoodLayout(l) && HeapOk(l, orig, cs)
    ensures IsHeader(l, a) || IsField(l, a) ==> InSomeChunk(cs, a)
  {
    if IsHeader(l, a) {
      assert Housed(cs, a + 1);
      var i :| Within(cs, a + 1, i);
      assert InSomeChunk(cs, a);
    }
    if IsField(l, a) {
      FieldWithin(l, orig, cs, a);
      var i :| InChunk(cs, a, i);
      assert InSomeChunk(cs, a);
    }
  }

  /** Encoding the headers does not matter. */
  lemma CompactedFromRaw(l: Layout, cs: seq<A.Chunk>, roots: set<Addr>, m: Memory, e: Addr, final: Memory,
      plan: map<Addr, Addr>)
    requires GoodLayout(l) && HeapOk(l, m, cs) && RootsApart(l, cs, m, roots)
             && Compacted(l, cs, roots, Encoded(l, m, e), final, plan)
    ensures Compacted(l, cs, roots, m, final, plan)
  {
    SurvivorsFromRaw(l, m, e, cs, roots);
    OutsideFromRaw(l, m, e, cs, roots);
    forall v | v in plan ensures BlockMoved(l, m, final, plan, v) {
      assert BlockMoved(l, Encoded(l, m, e), final, plan, v);
      BlockFromRaw(l, m, cs, e, final, plan, v);
    }
  }

  lemma SurvivorsFromRaw(l: Layout, m: Memory, e: Addr, cs: seq<A.Chunk>, roots: set<Addr>)
    requires GoodLayout(l) && RootsApart(l, cs, m, roots)
    ensures forall v: Addr :: Pointed(l, Encoded(l, m, e), roots, v) <==> Pointed(l, m, roots, v)
  {
    forall p: Addr | p in roots || IsField(l, p) ensures !IsHeader(l, p) {
      FieldIsNoHeader(l, p);
    }
    forall v: Addr ensures Pointed(l, Encoded(l, m, e), roots, v) <==> Pointed(l, m, roots, v) {
      PointedFromRaw(l, m, e, roots, v);
    }
  }

  lemma OutsideFromRaw(l: Layout, m: Memory, e: Addr, cs: seq<A.Chunk>, roots: set<Addr>)
    requires GoodLayout(l) && HeapOk(l, m, cs)
    ensures forall a {:trigger Outside(cs, roots, m, a)} :: Outside(cs, roots, m, a) ==>
              Outside(cs, roots, Encoded(l, m, e), a) && Encoded(l, m, e)[a] == m[a]
  {
    forall a | Outside(cs, roots, m, a) ensures Outside(cs, roots, Encoded(l, m, e), a) && Encoded(l, m, e)[a] == m[a] {
      HeapWordInChunk(l, m, cs, a);
    }
  }

  lemma PointedFromRaw(l: Layout, m: Memory, e: Addr, roots: set<Addr>, v: Addr)
    requires forall p: Addr :: p in roots || IsField(l, p) ==> !IsHeader(l, p)
    ensures Pointed(l, Encoded(l, m, e), roots, v) <==> Pointed(l, m, roots, v)
  {
    forall p: Addr | p in roots || IsField(l, p) ensures PointsTo(l, Encoded(l, m, e), p, v) <==> PointsTo(l, m, p, v) { }
  }

  lemma BlockFromRaw(l: Layout, m: Memory, cs: seq<A.Chunk>, e: Addr, final: Memory, plan: map<Addr, Addr>, v: Addr)
    requires GoodLayout(l) && HeapOk(l, m, cs) && v in plan && v in l.blocks
             && BlockMoved(l, Encoded(l, m, e), final, plan, v)
    ensures BlockMoved(l, m, final, plan, v)
  {
    WordsOfBlock(l, m, cs, v);
    forall i: nat | i < l.blocks[v].size ensures WordMoved(l, m, final, plan, v, i) {
      assert WordMoved(l, Encoded(l, m, e), final, plan, v, i);
    }
  }

  // ---------------------------------------------------------------- the graph

  /** The word reached from `w` along `path`: each step is a slot of the block pointed to, counted from
      the address pointed to, which may be an infix position. */
  ghost predicate Follows(l: Layout, m: Memory, w: Word, path: seq<int>, w': Word)
    decreases |path|
  {
    if path == [] then w == w'
    else Slot(l, m, w, path[0]) && Follows(l, m, m[w.a + path[0]], path[1..], w')
  }

  ghost predicate Slot(l: Layout, m: Memory, w: Word, i: int) {
    && w.Ptr? && w.a in l.base && w.a + i >= 0 && w.a + i in m
    && FieldOf(l, l.base[w.a], w.a + i)
  }

  /** The same path in the compacted heap, where a pointer no longer tells its block by the layout. */
  ghost predicate FollowsAfter(final: Memory, w: Word, path: seq<int>, w': Word)
    decreases |path|
  {
    if path == [] then w == w'
    else w.Ptr? && w.a + path[0] >= 0 && w.a + path[0] in final && FollowsAfter(final, final[w.a + path[0]], path[1..], w')
  }

  lemma EdgeKept(l: Layout, cs: seq<A.Chunk>, roots: set<Addr>, m: Memory, final: Memory, plan: map<Addr, Addr>,
      w: Word, i: int)
    requires GoodLayout(l) && Compacted(l, cs, roots, m, final, plan) && Slot(l, m, w, i) && l.base[w.a] in plan
    ensures var nw := NewWord(l, plan, w);
            nw.Ptr? && nw.a + i >= 0 && nw.a + i in final && final[nw.a + i] == NewWord(l, plan, m[w.a + i])
    ensures var x := m[w.a + i]; x.Ptr? && x.a in l.base ==> l.base[x.a] in plan
  {
    var v := l.base[w.a];
    assert TargetOk(l, w.a) && BlockMoved(l, m, final, plan, v);
    assert WordMoved(l, m, final, plan, v, w.a + i - v);
    assert IsField(l, w.a + i);
    var x := m[w.a + i];
    if x.Ptr? && x.a in l.base {
      assert TargetOk(l, x.a) && PointsTo(l, m, w.a + i, l.base[x.a]);
    }
  }

  /** Every path from a root leads to the same word before and after, up to the new addresses. */
  lemma {:induction false} PathsKept(l: Layout, cs: seq<A.Chunk>, roots: set<Addr>, m: Memory, final: Memory,
      plan: map<Addr, Addr>, w: Word, path: seq<int>, w': Word)
    requires GoodLayout(l) && Compacted(l, cs, roots, m, final, plan)
    requires w.Ptr? && w.a in l.base ==> l.base[w.a] in plan
    requires Follows(l, m, w, path, w')
    ensures FollowsAfter(final, NewWord(l, plan, w), path, NewWord(l, plan, w'))
    decreases |path|
  {
    if path != [] {
      EdgeKept(l, cs, roots, m, final, plan, w, path[0]);
      PathsKept(l, cs, roots, m, final, plan, m[w.a + path[0]], path[1..], w');
    }
  }

  /** In particular every path from a root. */
  lemma RootPathsKept(l: Layout, cs: seq<A.Chunk>, roots: set<Addr>, m: Memory, final: Memory, plan: map<Addr, Addr>,
      r: Addr, path: seq<int>, w: Word)
    requires GoodLayout(l) && Compacted(l, cs, roots, m, final, plan) && r in roots && r in m
             && Follows(l, m, m[r], path, w)
    ensures r in final && FollowsAfter(final, final[r], path, NewWord(l, plan, w))
  {
    if m[r].Ptr? && m[r].a in l.base {
      assert TargetOk(l, m[r].a) && PointsTo(l, m, r, l.base[m[r].a]);
    }
    PathsKept(l, cs, roots, m, final, plan, m[r], path, w);
  }

  /** Two different words stay different: no two pointers are made equal. */
  lemma NewWordsDiffer(l: Layout, cs: seq<A.Chunk>, roots: set<Addr>, m: Memory, final: Memory, plan: map<Addr, Addr>,
      a: Addr, b: Addr)
    requires GoodLayout(l) && Compacted(l, cs, roots, m, final, plan)
    requires a in l.base && b in l.base && l.base[a] in plan && l.base[b] in plan
    ensures NewWord(l, plan, Ptr(a)) == NewWord(l, plan, Ptr(b)) <==> a == b
  {
    var v, w := l.base[a], l.base[b];
    assert TargetOk(l, a) && TargetOk(l, b) && Behind(plan, v) && Behind(plan, w) && BlockOk(l, v) && BlockOk(l, w);
    var x: Addr, y: Addr := plan[v] + (a - v) - 1, plan[w] + (b - w) - 1;
    assert Dest(l, plan, v, x) && Dest(l, plan, w, y);
    if x == y {
      assert v == w;
    }
  }

  // ---------------------------------------------------------------- preconditions

  ghost function RootSet(roots: seq<Addr>): (s: set<Addr>)
    ensures forall r :: r in s <==> r in roots
  {
    set r | r in roots
  }

  ghost function Survivors(l: Layout, m: Memory, roots: set<Addr>): set<Addr> {
    set v | v in l.blocks && Pointed(l, m, roots, v)
  }

  lemma RootsApartOk(l: Layout, m: Memory, cs: seq<A.Chunk>, roots: set<Addr>)
    requires GoodLayout(l) && HeapOk(l, m, cs) && RootsApart(l, cs, m, roots)
    ensures RootsOk(l, m, roots)
  {
    forall r, v | r in roots && v in l.blocks ensures r + 1 < v || r >= v + l.blocks[v].size {
      if v <= r < v + l.blocks[v].size { NoRootInside(l, m, cs, roots, v, r); }
    }
  }

  /** After pass 2 the blocks with threads are the survivors. */
  lemma LiveAreSurvivors(mem: Memory, l: Layout, m: Memory, e: Addr, th: Threads, done: set<Addr>, roots: set<Addr>)
    requires Inv(mem, l, Encoded(l, m, e), th, done)
    requires forall a: Addr :: a in done <==> a in roots || IsField(l, a)
    requires forall r :: r in roots ==> !IsHeader(l, r) && !IsInfixHeader(l, r)
    ensures Live(l, th) == Survivors(l, m, roots)
  {
    InversionEnds(mem, l, Encoded(l, m, e), th, done, map[]);
    forall p: Addr | p in roots || IsField(l, p) ensures !IsHeader(l, p) {
      FieldIsNoHeader(l, p);
    }
    forall v: Addr | v in l.blocks ensures v in Live(l, th) <==> v in Survivors(l, m, roots) {
      LiveIsPointed(l, Encoded(l, m, e), th, done, roots, v);
      PointedFromRaw(l, m, e, roots, v);
    }
  }

  // ---------------------------------------------------------------- the look-ahead

  /** One chunk of six words, filled by a block of three fields and one of a single field. */
  function SmallLayout(): Layout {
    Layout(map[2 := Block(3, 0, {}), 6 := Block(1, 0, {})], map[2 := 2, 6 := 6])
  }

  /** Two roots outside the chunk point to the two blocks. */
  function SmallMemory(): Memory {
    map[1 := Hd(3, 0, false), 2 := Imm(0), 3 := Imm(0), 4 := Imm(0), 5 := Hd(1, 0, false), 6 := Imm(0), 10 := Ptr(2), 11 := Ptr(6)]
  }

  lemma SmallLayoutOk()
    ensures GoodLayout(SmallLayout()) && Raw(SmallLayout(), SmallMemory())
  {
  }

  lemma SmallHeapOk()
    ensures HeapOk(SmallLayout(), SmallMemory(), [A.Chunk(1, 6)])
  {
    var l, cs := SmallLayout(), [A.Chunk(1, 6)];
    forall v | v in l.blocks ensures Housed(cs, v) { assert Within(cs, v, 0); }
    forall v | v in l.blocks ensures InHeap(l, SmallMemory(), v) { }
  }

  lemma SmallRootsOk()
    ensures var cs := [A.Chunk(1, 6)]; Mapped(cs, SmallMemory()) && RootsApart(SmallLayout(), cs, SmallMemory(), {10, 11})
  {
  }

  /** A heap on which compact_allocate looks beyond the last chunk. */
  lemma LookAheadFails()
    ensures Fails(SmallLayout(), SmallMemory(), [A.Chunk(1, 6)], {10, 11})
  {
    SmallLayoutOk();
    SmallHeapOk();
    SmallRootsOk();
    SurvivorsHere(SmallLayout(), SmallMemory(), {10, 11});
    FailsHere(SmallLayout(), [A.Chunk(1, 6)], Survivors(SmallLayout(), SmallMemory(), {10, 11}));
  }

  ghost predicate Fails(l: Layout, m: Memory, cs: seq<A.Chunk>, roots: set<Addr>) {
    && GoodLayout(l) && Raw(l, m) && HeapOk(l, m, cs) && Mapped(cs, m) && RootsApart(l, cs, m, roots)
    && Plan(l, cs, Survivors(l, m, roots), 0, cs[0].start, A.Init(cs)).None?
  }

  lemma SurvivorsHere(l: Layout, m: Memory, roots: set<Addr>)
    requires 10 in roots && 11 in roots && 10 in m && 11 in m && m[10] == Ptr(2) && m[11] == Ptr(6)
    requires 2 in l.blocks && 6 in l.blocks && 2 in l.base && 6 in l.base && l.base[2] == 2 && l.base[6] == 6
    ensures 2 in Survivors(l, m, roots) && 6 in Survivors(l, m, roots)
  {
    assert PointsTo(l, m, 10, 2) && PointsTo(l, m, 11, 6);
  }

  lemma FailsHere(l: Layout, cs: seq<A.Chunk>, live: set<Addr>)
    requires cs == [A.Chunk(1, 6)] && 2 in live && 6 in live
    requires 2 in l.blocks && 6 in l.blocks && l.blocks[2].size == 3 && l.blocks[6].size == 1
    ensures Plan(l, cs, live, 0, cs[0].start, A.Init(cs)).None?
  {
    var s := A.State([0], 0);
    assert A.Init(cs) == s;
    assert A.Allocate(cs, s, 4) == A.At(1, A.State([4], 0));
    assert Plan(l, cs, live, 0, 5, A.State([4], 0)).None?;
  }
}
