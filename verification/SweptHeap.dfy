// What a sweep over one chunk does to the heap of the best-fit policy: which words
// it gives back, and which free blocks follow each other afterwards (major_gc.c
// and freelist.c).  Everything is said of the headers and the free set before and after.

module SweptHeap {
  import opened Basics
  import opened Trees
  import opened LargeTree
  import opened FreeSet
  import S = SmallLists

  /** Word `w` is the header or a field of block `b`. */
  ghost predicate Holds(h: Heap, b: Addr, w: Addr) {
    b in h.size && b <= w + 1 && w < b + h.size[b]
  }

  ghost predicate FreeOrFragment(g: Heap, b: Addr) {
    b in g.size && (b in g.free || (g.size[b] == 0 && S.IsWhite(g.color, b)))
  }

  /** Word `w` belongs to a free block, or is a fragment that has only a header. */
  ghost predicate Returned(g: Heap, w: Addr) {
    exists b: Addr :: Holds(g, b, w) && FreeOrFragment(g, b)
  }

  ghost predicate Dead(h: Heap, a: Addr) {
    a in h.size && Sweepable(h.size, h.color, a)
  }

  ghost predicate InUse(h: Heap, a: Addr) {
    a in h.size && !Sweepable(h.size, h.color, a)
  }

  /** Every word of the blocks between `from` and `hp` that were white or blue has been given back. */
  ghost predicate AllReturned(h: Heap, g: Heap, from: Addr, hp: Addr) {
    forall a: Addr, w: Addr {:trigger Holds(h, a, w)} :: Holds(h, a, w) && from < a <= hp && Dead(h, a) ==> Returned(g, w)
  }

  /** Nothing has changed beyond `hp`. */
  ghost predicate Ahead(h: Heap, g: Heap, hp: Addr) {
    forall a: Addr {:trigger SameAt(h, g, a)} :: a > hp ==> SameAt(h, g, a)
  }

  /** Free block `c` follows free block `b`. */
  ghost predicate Adjacent(g: Heap, b: Addr, c: Addr) {
    b in g.free && c in g.free && b in g.size && c in g.size && c == b + g.size[b] + 1
  }

  /** No dead block comes before `b` without a block in use between them: the sweeper passes `b` and does not
      merge it with what is before. */
  ghost predicate Passes(h: Heap, from: Addr, b: Addr) {
    forall x: Addr {:trigger S.IsWhite(h.color, x)} :: x in h.size && from < x < b && S.IsWhite(h.color, x) ==> Separated(h, x, b)
  }

  ghost predicate Separated(h: Heap, x: Addr, b: Addr) {
    exists y: Addr :: x < y < b && InUse(h, y)
  }

  /** Free blocks up to `hp` that follow each other: behind a block of the greatest size, or where they did
      already, with nothing dead before them. */
  ghost predicate OldNeighbours(h: Heap, g: Heap, from: Addr, hp: Addr) {
    forall b: Addr, c: Addr {:trigger Adjacent(g, b, c)} :: Adjacent(g, b, c) && from < b && c <= hp ==>
      g.size[b] == MAX_WOSIZE || (Adjacent(h, b, c) && Passes(h, from, b))
  }

  /** A free block that the sweeper has passed is still free, and has grown only if the next block was dead. */
  ghost predicate PassedStay(h: Heap, g: Heap, from: Addr, hp: Addr) {
    forall b: Addr {:trigger b in h.free} :: b in h.free && from < b <= hp && b in h.size && S.IsBlue(h.color, b) && Passes(h, from, b) ==>
      && b in g.free && b in g.size
      && (g.size[b] == h.size[b] || S.IsWhite(h.color, b + h.size[b] + 1))
  }

  /** What the sweeper has achieved from `from` to `hp`. */
  ghost predicate Swept(h: Heap, g: Heap, from: Addr, hp: Addr) {
    AllReturned(h, g, from, hp) && Ahead(h, g, hp) && OldNeighbours(h, g, from, hp) && PassedStay(h, g, from, hp)
  }

  /** Before a white or blue block: a free block that ends here is the one in `flMerge`, as it was, and no dead
      block has been left unseparated. */
  ghost predicate AtDead(h: Heap, g: Heap, from: Addr, hp: Addr, flMerge: Addr) {
    && Passes(h, from, hp + 1)
    && forall b: Addr :: b in g.free && b in g.size && from < b && b + g.size[b] == hp ==>
         b == flMerge && S.IsBlue(g.color, b) && SameAt(h, g, b) && Passes(h, from, b)
  }

  ghost predicate Sweeping(h: Heap, g: Heap, from: Addr, hp: Addr, limit: Addr, flMerge: Addr) {
    && Swept(h, g, from, hp)
    && (hp < limit && Dead(g, hp + 1) ==> AtDead(h, g, from, hp, flMerge))
  }

  lemma SweepStarts(h: Heap, from: Addr, limit: Addr, flMerge: Addr)
    requires HeapOk(h.size, h.color)
    ensures Sweeping(h, h, from, from, limit, flMerge)
  {
  }

  // ---------------------------------------------------------------- one block

  /** The blocks between the sweeper and the end of block `a` at the sweeper. */
  lemma OnlyBlock(h: Heap, g: Heap, hp: Addr, a: Addr)
    requires Ahead(h, g, hp) && HeapOk(g.size, g.color) && a == hp + 1 && a in g.size
    ensures a in h.size && h.size[a] == g.size[a] && SameAt(h, g, a)
    ensures forall b: Addr :: (b in h.size || b in g.size) && hp < b <= a + g.size[a] ==> b == a
  {
    assert SameAt(h, g, a) && forall b: Addr :: b in g.size && b > a ==> Apart(g.size, a, b);
    forall b: Addr | (b in h.size || b in g.size) && hp < b <= a + g.size[a] ensures b == a {
      assert SameAt(h, g, b);
    }
  }

  lemma LaterAhead(h: Heap, g: Heap, g': Heap, hp: Addr, hp': Addr)
    requires Ahead(h, g, hp) && hp <= hp' && forall b: Addr {:trigger SameAt(g, g', b)} :: b > hp' ==> SameAt(g, g', b)
    ensures Ahead(h, g', hp')
  {
    forall b: Addr | b > hp' ensures SameAt(h, g', b) {
      assert SameAt(h, g, b) && SameAt(g, g', b);
    }
  }

  lemma FreePassed(h: Heap, g: Heap, from: Addr, hp: Addr, limit: Addr, flMerge: Addr, a: Addr)
    requires Sweeping(h, g, from, hp, limit, flMerge) && HeapOk(g.size, g.color)
    requires a == hp + 1 && hp < limit && from <= hp && a in g.size && S.IsBlue(g.color, a) && a in g.free
    ensures Sweeping(h, g, from, a + g.size[a], limit, a)
  {
    var hp' := a + g.size[a];
    OnlyBlock(h, g, hp, a);
    assert AtDead(h, g, from, hp, flMerge);
    forall b: Addr, w: Addr | Holds(h, b, w) && from < b <= hp' && Dead(h, b) ensures Returned(g, w) {
      if b > hp { assert Holds(g, a, w) && FreeOrFragment(g, a); }
    }
    LaterAhead(h, g, g, hp, hp');
    forall b: Addr, c: Addr | Adjacent(g, b, c) && from < b && c <= hp'
      ensures g.size[b] == MAX_WOSIZE || (Adjacent(h, b, c) && Passes(h, from, b))
    {
      if c > hp { assert c == a && SameAt(h, g, b); }
    }
    if hp' < limit && Dead(g, hp' + 1) { FreePassedEnd(h, g, from, hp, a); }
  }

  lemma FreePassedEnd(h: Heap, g: Heap, from: Addr, hp: Addr, a: Addr)
    requires Ahead(h, g, hp) && HeapOk(g.size, g.color) && Passes(h, from, hp + 1) && from <= hp
    requires a == hp + 1 && a in g.size && S.IsBlue(g.color, a)
    ensures AtDead(h, g, from, a + g.size[a], a)
  {
    OnlyBlock(h, g, hp, a);
    var hp' := a + g.size[a];
    forall x: Addr | x in h.size && from < x < hp' + 1 && S.IsWhite(h.color, x) ensures Separated(h, x, hp' + 1) {
      assert x < a;
      assert Separated(h, x, a);
      var y: Addr :| x < y < a && InUse(h, y);
    }
    assert forall b: Addr :: b in g.size && b < a ==> Apart(g.size, b, a);
    assert forall b: Addr :: b in g.size && b > a ==> Apart(g.size, a, b);
  }

  lemma LivePassed(h: Heap, g: Heap, from: Addr, hp: Addr, limit: Addr, flMerge: Addr, a: Addr)
    requires Sweeping(h, g, from, hp, limit, flMerge) && HeapOk(g.size, g.color)
    requires a == hp + 1 && hp < limit && from <= hp && InUse(g, a) && a !in g.free && a in g.color
    ensures Sweeping(h, g.(color := g.color[a := White]), from, a + g.size[a], limit, flMerge)
  {
    var g', hp' := g.(color := g.color[a := White]), a + g.size[a];
    OnlyBlock(h, g, hp, a);
    forall b: Addr, w: Addr | Holds(h, b, w) && from < b <= hp' && Dead(h, b) ensures Returned(g', w) {
      assert Returned(g, w);
      var d: Addr :| Holds(g, d, w) && FreeOrFragment(g, d);
      assert Holds(g', d, w) && FreeOrFragment(g', d);
    }
    LaterAhead(h, g, g', hp, hp');
    forall b: Addr, c: Addr | Adjacent(g', b, c) && from < b && c <= hp'
      ensures g'.size[b] == MAX_WOSIZE || (Adjacent(h, b, c) && Passes(h, from, b))
    {
      assert Adjacent(g, b, c);
    }
    LivePassedEnd(h, g, from, hp, flMerge, a);
  }

  lemma LivePassedEnd(h: Heap, g: Heap, from: Addr, hp: Addr, flMerge: Addr, a: Addr)
    requires Ahead(h, g, hp) && HeapOk(g.size, g.color) && from <= hp
    requires a == hp + 1 && InUse(g, a) && a !in g.free && a in g.color
    ensures AtDead(h, g.(color := g.color[a := White]), from, a + g.size[a], flMerge)
  {
    OnlyBlock(h, g, hp, a);
    var hp' := a + g.size[a];
    forall x: Addr | x in h.size && from < x < hp' + 1 && S.IsWhite(h.color, x) ensures Separated(h, x, hp' + 1) {
      assert x != a;
      assert x < a && InUse(h, a);
    }
    assert forall b: Addr :: b in g.size && b < a ==> Apart(g.size, b, a);
    assert forall b: Addr :: b in g.size && b > a ==> Apart(g.size, a, b);
  }

  // ---------------------------------------------------------------- a merged run

  /** The pieces of a refilled run cover all its words. */
  lemma {:induction false} PieceAt(g: Heap, start: Addr, end: Addr, a: Addr, w: Addr)
    requires Refilled(g, start, end) && a in g.size && start <= a && a - 1 <= w < end - 1
    ensures Returned(g, w)
    decreases end - a
  {
    assert Piece(g, a, end);
    if w < a + g.size[a] {
      assert Holds(g, a, w) && FreeOrFragment(g, a);
    } else {
      PieceAt(g, start, end, a + g.size[a] + 1, w);
    }
  }

  /** The run from `start` to `end`, made of white and blue blocks with a white one at the sweeper, has been
      filled with free blocks. */
  ghost predicate Merged(g: Heap, g': Heap, hp: Addr, start: Addr, end: Addr, limit: Addr) {
    && HeapOk(g.size, g.color) && HeapOk(g'.size, g'.color) && 0 < start <= hp + 1 < end <= limit + 1
    && hp + 1 in g.size && S.IsWhite(g.color, hp + 1)
    && (forall b: Addr :: b in g.size && start <= b < end ==> b + g.size[b] < end && Sweepable(g.size, g.color, b))
    && Refilled(g', start, end) && SameOutside(g, g', start, end)
    && (end == limit + 1 || !Dead(g', end))
  }

  /** The run starts at the sweeper if no free block ends there, and with that free block otherwise. */
  ghost predicate StartsRight(g: Heap, hp: Addr, start: Addr, flMerge: Addr) {
    if EndsAt(g.size, g.color, flMerge, hp) then start == flMerge && flMerge in g.free else start == hp + 1
  }

  lemma RunMerged(h: Heap, g: Heap, g': Heap, from: Addr, hp: Addr, limit: Addr, flMerge: Addr, start: Addr, end: Addr)
    requires Sweeping(h, g, from, hp, limit, flMerge) && from <= hp && Merged(g, g', hp, start, end, limit)
    requires StartsRight(g, hp, start, flMerge)
    ensures Sweeping(h, g', from, end - 1, limit, flMerge)
  {
    assert Dead(g, hp + 1);
    RunReturned(h, g, g', from, hp, start, end, limit);
    forall b: Addr | b > end - 1 ensures SameAt(g, g', b) { }
    LaterAhead(h, g, g', hp, end - 1);
    RunNeighbours(h, g, g', from, hp, limit, flMerge, start, end);
    RunPassedStay(h, g, g', from, hp, limit, flMerge, start, end);
  }

  /** The blocks of a run that the sweeper has merged end inside it. */
  lemma RunEndsInside(g: Heap, g': Heap, hp: Addr, limit: Addr, start: Addr, hp': Addr)
    requires HeapOk(g.size, g.color) && Tiled(g.size, hp + 1, limit) && start <= hp + 1 <= hp' <= limit && hp + 1 in g.size
    requires SameOutside(g, g', start, hp' + 1) && (hp' == limit || hp' + 1 in g'.size)
    ensures forall b :: b in g.size && start <= b <= hp' ==> b + g.size[b] <= hp'
  {
    assert SameAt(g, g', hp' + 1);
    forall b | b in g.size && start <= b <= hp' ensures b + g.size[b] <= hp' {
      if hp' < limit {
        assert Apart(g.size, b, hp' + 1);
      } else if b > hp {
        assert Follows(g.size, b, limit);
      } else {
        assert Apart(g.size, b, hp + 1);
      }
    }
  }

  lemma RunSwept(h: Heap, g: Heap, g': Heap, from: Addr, hp: Addr, limit: Addr, flMerge: Addr, start: Addr, hp': Addr)
    requires Sweeping(h, g, from, hp, limit, flMerge) && StartsRight(g, hp, start, flMerge)
    requires HeapOk(g.size, g.color) && HeapOk(g'.size, g'.color) && Tiled(g.size, hp + 1, limit)
    requires from <= hp && 0 < start <= hp + 1 <= hp' <= limit && hp + 1 in g.size && S.IsWhite(g.color, hp + 1)
    requires SameOutside(g, g', start, hp' + 1) && Refilled(g', start, hp' + 1)
    requires hp' == limit || InUse(g', hp' + 1)
    requires forall b :: b in g.size && start <= b <= hp' ==> Sweepable(g.size, g.color, b)
    ensures Sweeping(h, g', from, hp', limit, flMerge)
  {
    RunEndsInside(g, g', hp, limit, start, hp');
    RunMerged(h, g, g', from, hp, limit, flMerge, start, hp' + 1);
  }

  lemma RunReturned(h: Heap, g: Heap, g': Heap, from: Addr, hp: Addr, start: Addr, end: Addr, limit: Addr)
    requires AllReturned(h, g, from, hp) && Ahead(h, g, hp) && Merged(g, g', hp, start, end, limit)
    ensures AllReturned(h, g', from, end - 1)
  {
    forall a: Addr, w: Addr | Holds(h, a, w) && from < a <= end - 1 && Dead(h, a) ensures Returned(g', w) {
      if a > hp {
        assert SameAt(h, g, a);
        PieceAt(g', start, end, start, w);
      } else {
        assert Returned(g, w);
        WordStays(g, g', hp, start, end, limit, w);
      }
    }
  }

  lemma WordStays(g: Heap, g': Heap, hp: Addr, start: Addr, end: Addr, limit: Addr, w: Addr)
    requires Merged(g, g', hp, start, end, limit) && Returned(g, w)
    ensures Returned(g', w)
  {
    var b: Addr :| Holds(g, b, w) && FreeOrFragment(g, b);
    if start <= b < end {
      PieceAt(g', start, end, start, w);
    } else {
      assert SameAt(g, g', b);
      assert Holds(g', b, w) && FreeOrFragment(g', b);
    }
  }

  lemma RunNeighbours(h: Heap, g: Heap, g': Heap, from: Addr, hp: Addr, limit: Addr, flMerge: Addr, start: Addr, end: Addr)
    requires OldNeighbours(h, g, from, hp) && Merged(g, g', hp, start, end, limit)
    requires AtDead(h, g, from, hp, flMerge) && StartsRight(g, hp, start, flMerge)
    ensures OldNeighbours(h, g', from, end - 1)
  {
    forall b: Addr, c: Addr | Adjacent(g', b, c) && from < b && c <= end - 1
      ensures g'.size[b] == MAX_WOSIZE || (Adjacent(h, b, c) && Passes(h, from, b))
    {
      if b >= start {
        assert Piece(g', b, end);
      } else {
        assert SameAt(g, g', b) && Apart(g'.size, b, start);
        assert c <= start;
        if c < start { assert SameAt(g, g', c); }
        assert start <= hp ==> start == flMerge;
        assert b + g.size[b] == c - 1;
        assert c <= hp;
        assert Adjacent(g, b, c);
      }
    }
  }

  lemma RunPassedStay(h: Heap, g: Heap, g': Heap, from: Addr, hp: Addr, limit: Addr, flMerge: Addr, start: Addr, end: Addr)
    requires PassedStay(h, g, from, hp) && Ahead(h, g, hp) && Merged(g, g', hp, start, end, limit)
    requires AtDead(h, g, from, hp, flMerge) && StartsRight(g, hp, start, flMerge) && from <= hp
    ensures PassedStay(h, g', from, end - 1)
  {
    assert SameAt(h, g, hp + 1);
    forall b: Addr | b in h.free && from < b <= end - 1 && b in h.size && S.IsBlue(h.color, b) && Passes(h, from, b)
      ensures b in g'.free && b in g'.size && (g'.size[b] == h.size[b] || S.IsWhite(h.color, b + h.size[b] + 1))
    {
      if b > hp {
        RunIsDead(h, g, g', from, hp, start, end, limit, b);
      } else if b < start {
        assert SameAt(g, g', b);
      } else {
        assert start == flMerge && forall x: Addr :: x in g.size && x > start ==> Apart(g.size, start, x);
        assert Piece(g', b, end);
      }
    }
  }

  /** The sweeper does not pass a block of the run behind its dead first one. */
  lemma RunIsDead(h: Heap, g: Heap, g': Heap, from: Addr, hp: Addr, start: Addr, end: Addr, limit: Addr, b: Addr)
    requires Ahead(h, g, hp) && Merged(g, g', hp, start, end, limit) && from <= hp < b <= end
    ensures if b == hp + 1 then S.IsWhite(h.color, b) else !Passes(h, from, b)
  {
    assert SameAt(h, g, hp + 1);
    forall y: Addr | hp + 1 < y < b ensures !InUse(h, y) {
      assert SameAt(h, g, y);
    }
    assert S.IsWhite(h.color, hp + 1) && !Separated(h, hp + 1, b);
  }

  // ---------------------------------------------------------------- neighbours

  /** Which free blocks still follow each other after a sweep, pieces of the greatest size apart: exactly those
      that did before, with no dead block before them. */
  ghost predicate NeighboursLeft(h: Heap, g: Heap, from: Addr, hp: Addr) {
    forall b: Addr, c: Addr {:trigger Adjacent(g, b, c)} {:trigger Adjacent(h, b, c)} :: from < b && c <= hp ==>
      (Adjacent(g, b, c) && g.size[b] != MAX_WOSIZE <==> Adjacent(h, b, c) && h.size[b] != MAX_WOSIZE && Passes(h, from, b))
  }

  lemma NeighboursExactly(h: Heap, g: Heap, from: Addr, hp: Addr)
    requires HeapOk(h.size, h.color) && Swept(h, g, from, hp)
    requires forall x: Addr :: x in h.free && x > from ==> S.IsBlue(h.color, x)
    ensures NeighboursLeft(h, g, from, hp)
  {
    forall b: Addr, c: Addr | from < b && c <= hp && Adjacent(h, b, c) && Passes(h, from, b)
      ensures Adjacent(g, b, c) && g.size[b] == h.size[b]
    {
      PassesNext(h, from, b, c);
      assert S.IsBlue(h.color, c);
    }
    forall b: Addr, c: Addr | from < b && c <= hp && Adjacent(g, b, c) && g.size[b] != MAX_WOSIZE
      ensures Adjacent(h, b, c) && Passes(h, from, b) && g.size[b] == h.size[b]
    {
    }
  }

  lemma PassesNext(h: Heap, from: Addr, b: Addr, c: Addr)
    requires HeapOk(h.size, h.color) && Adjacent(h, b, c) && Passes(h, from, b) && S.IsBlue(h.color, b)
    ensures Passes(h, from, c)
  {
    assert forall x: Addr :: x in h.size && x > b ==> Apart(h.size, b, x);
    forall x: Addr | x in h.size && from < x < c && S.IsWhite(h.color, x) ensures Separated(h, x, c) {
      assert Separated(h, x, b);
      var y: Addr :| x < y < b && InUse(h, y);
    }
  }

  /** No two free blocks follow each other, except behind a block of the greatest size. */
  ghost predicate Coalesced(h: Heap, from: Addr, hp: Addr) {
    forall b: Addr, c: Addr {:trigger Adjacent(h, b, c)} :: Adjacent(h, b, c) && from < b && c <= hp ==> h.size[b] == MAX_WOSIZE
  }

  lemma SweepCoalesces(h: Heap, g: Heap, from: Addr, hp: Addr)
    requires NeighboursLeft(h, g, from, hp) && Coalesced(h, from, hp)
    ensures Coalesced(g, from, hp)
  {
  }

  /** Free blocks can follow each other after a sweep: two that did before, at the start of the heap. */
  lemma NeighboursMayStay() returns (h: Heap)
    ensures HeapOk(h.size, h.color) && Tiled(h.size, 1, 7) && (forall b :: b in h.free ==> S.IsBlue(h.color, b))
    ensures forall g :: NeighboursLeft(h, g, 0, 7) ==> !Coalesced(g, 0, 7)
  {
    h := Heap(map[1 := 2, 4 := 3], map[1 := Blue, 4 := Blue], {1, 4});
    assert Adjacent(h, 1, 4) && Passes(h, 0, 1);
    forall g | NeighboursLeft(h, g, 0, 7) ensures !Coalesced(g, 0, 7) {
      assert Adjacent(g, 1, 4);
    }
  }

  /** Allocation from block `v` makes no free blocks follow each other that did not before. */
  lemma CutStaysCoalesced(h: Heap, g: Heap, v: Addr, wosz: nat, from: Addr, hp: Addr)
    requires Coalesced(h, from, hp) && HeapOk(h.size, h.color) && v in h.free && v in h.size && h.size[v] >= wosz
    requires (forall b :: b in h.free ==> b in h.size) && g.size == SplitSize(h.size, v, wosz)
    requires g.free == h.free - {v} || (h.size[v] > wosz && g.free == h.free)
    ensures Coalesced(g, from, hp)
  {
    if h.size[v] > wosz { SplitHeap(h.size, h.color, v, wosz, h.color[SplitAddr(h.size, v, wosz) := White]); }
    forall b: Addr, c: Addr | Adjacent(g, b, c) && from < b && c <= hp ensures g.size[b] == MAX_WOSIZE {
      assert b != v ==> Adjacent(h, b, c);
    }
  }
}
