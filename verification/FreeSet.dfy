// Words held by sets of blocks, and changes of headers that leave the free set
// alone (freelist.c, best-fit policy).

module FreeSet {
  import opened Basics
  import opened Trees
  import opened LargeTree
  import S = SmallLists
  import G = LargeSet

  ghost function WordsOf(size: Sizes, a: Addr): nat {
    if a in size then size[a] + 1 else 0
  }

  /** Words, headers included, of the blocks of a set. */
  ghost function Weight(size: Sizes, s: set<Addr>): nat
    decreases |s|
  {
    if s == {} then 0
    else
      var x :| x in s;
      WordsOf(size, x) + Weight(size, s - {x})
  }

  lemma {:induction false} WeightRemove(size: Sizes, s: set<Addr>, x: Addr)
    requires x in s
    ensures Weight(size, s) == WordsOf(size, x) + Weight(size, s - {x})
    decreases |s|
  {
    var y :| y in s && Weight(size, s) == WordsOf(size, y) + Weight(size, s - {y});
    if y != x {
      WeightRemove(size, s - {y}, x);
      WeightRemove(size, s - {x}, y);
      assert s - {y} - {x} == s - {x} - {y};
    }
  }

  lemma {:induction false} WeightSame(size: Sizes, size': Sizes, s: set<Addr>)
    requires forall a :: a in s ==> WordsOf(size, a) == WordsOf(size', a)
    ensures Weight(size, s) == Weight(size', s)
    decreases |s|
  {
    if s != {} {
      var x :| x in s && Weight(size, s) == WordsOf(size, x) + Weight(size, s - {x});
      WeightRemove(size', s, x);
      WeightSame(size, size', s - {x});
    }
  }

  lemma WeightAdd(size: Sizes, s: set<Addr>, x: Addr)
    requires x !in s
    ensures Weight(size, s + {x}) == WordsOf(size, x) + Weight(size, s)
  {
    WeightRemove(size, s + {x}, x);
    assert s + {x} - {x} == s;
  }

  // ---------------------------------------------------------------- the heap

  /** Block `a` covers the words from its header at `a - 1` to `a + size[a] - 1`. */
  ghost predicate Apart(size: Sizes, a: Addr, b: Addr)
    requires a in size
  {
    a + size[a] < b
  }

  /** The blocks of the heap have headers and do not overlap. */
  ghost predicate HeapOk(size: Sizes, color: map<Addr, Color>) {
    && NULL !in size && (forall a :: a in size ==> a in color)
    && forall a, b {:trigger Apart(size, a, b)} :: a in size && b in size && a < b ==> Apart(size, a, b)
  }

  /** The upper part of block `v` becomes a block of size `wosz`, the rest stays at `v`. */
  function SplitAddr(size: Sizes, v: Addr, wosz: nat): Addr
    requires v in size && size[v] >= wosz
  {
    v + (size[v] - wosz)
  }

  function SplitSize(size: Sizes, v: Addr, wosz: nat): Sizes
    requires v in size && size[v] >= wosz
  {
    if size[v] == wosz then size
    else size[v := size[v] - wosz - 1][SplitAddr(size, v, wosz) := wosz]
  }

  lemma SplitHeap(size: Sizes, color: map<Addr, Color>, v: Addr, wosz: nat, color': map<Addr, Color>)
    requires HeapOk(size, color) && v in size && size[v] > wosz
    requires forall a :: a in color || a == SplitAddr(size, v, wosz) ==> a in color'
    ensures HeapOk(SplitSize(size, v, wosz), color') && SplitAddr(size, v, wosz) !in size
  {
    var r, size' := SplitAddr(size, v, wosz), SplitSize(size, v, wosz);
    assert r in size ==> Apart(size, v, r);
    forall a, b | a in size' && b in size' && a < b ensures Apart(size', a, b) {
      assert a in size && b in size ==> Apart(size, a, b);
      assert a in size && a < v ==> Apart(size, a, v);
      assert b in size && b > v ==> Apart(size, v, b);
      assert a in size && a > v ==> Apart(size, v, a);
      assert b in size && b < v ==> Apart(size, b, v);
    }
  }

  /** Headers outside the set change freely. */
  lemma SmallFrame(r: S.Lists, size: Sizes, color: map<Addr, Color>, size': Sizes, color': map<Addr, Color>)
    requires S.SmallOk(r, size, color)
    requires forall b :: b in r.blocks && b in size && b in color ==> b in size' && b in color' && size'[b] == size[b] && color'[b] == color[b]
    ensures S.SmallOk(r, size', color')
  {
    forall i: nat | 1 <= i <= BF_NUM_SMALL ensures S.ListOk(r, size', color', i) {
      assert S.ListOk(r, size, color, i);
      var s := r.lists[i];
      assert forall k :: 0 <= k < |s| ==> s[k] in s;
    }
    forall b | b in r.blocks ensures S.BlockOk(r, size', b) {
      S.ListFacts(r, size, color, 1);
      assert S.BlockOk(r, size, b) && S.ListOk(r, size, color, size[b]);
      var k :| 0 <= k < |r.lists[size[b]]| && r.lists[size[b]][k] == b;
    }
  }

  lemma SweptFrame(r: S.Lists, size: Sizes, color: map<Addr, Color>, color': map<Addr, Color>, front: Addr)
    requires S.SmallOk(r, size, color) && S.AllSwept(r, color, front)
    requires forall b :: b in r.blocks && b in color ==> b in color' && color'[b] == color[b]
    ensures S.AllSwept(r, color', front)
  {
    forall i: nat | 1 <= i <= BF_NUM_SMALL ensures S.SweptList(r, color', i, front) {
      assert S.SweptList(r, color, i, front) && S.ListOk(r, size, color, i);
      var s := r.lists[i];
      assert forall k :: 0 <= k < |s| ==> s[k] in s;
    }
  }

  lemma RingsFrame(r: G.Lists, size: Sizes, order: seq<Addr>, size': Sizes)
    requires G.RingsOk(r, size, order)
    requires forall b :: b in r.blocks && b in size ==> b in size' && size'[b] == size[b]
    ensures G.RingsOk(r, size', order)
  {
    G.NodesAreBlocks(r, size, order);
    forall a | a in order ensures G.NodeOk(r, size', a) { assert G.NodeOk(r, size, a); }
    forall z | z in r.rings ensures G.RingOk(r, size', order, z) {
      assert G.RingOk(r, size, order, z);
      var s := r.rings[z];
      assert forall i :: 0 <= i < |s| ==> s[i] in s;
    }
    forall b | b in r.blocks ensures G.BlockOk(r, size', b) { assert G.BlockOk(r, size, b); }
  }

  lemma OrderFrame(size: Sizes, order: seq<Addr>, size': Sizes)
    requires Sorted(size, order) && AllAbove(size, order, BF_NUM_SMALL)
    requires forall a :: a in order && a in size ==> a in size' && size'[a] == size[a]
    ensures Sorted(size', order) && AllAbove(size', order, BF_NUM_SMALL)
  {
    forall i, j | 0 <= i < j < |order| ensures size'[order[i]] < size'[order[j]] {
      assert order[i] in order && order[j] in order && size[order[i]] < size[order[j]];
    }
  }

  // ---------------------------------------------------------------- the sweeper's front

  type Colors = map<Addr, Color>

  /** A block that the sweeper adds to the free set or finds there. */
  predicate Sweepable(size: Sizes, color: Colors, a: Addr) {
    a in size && a in color && (color[a] == White || color[a] == Blue)
  }

  /** Free block `a` ends where the sweeper is. */
  predicate EndsAt(size: Sizes, color: Colors, a: Addr, hp: Addr) {
    a in size && a in color && color[a] == Blue && a + size[a] == hp
  }

  /** The first block that the sweeper may still merge: the free block just passed, if it ends where
      the sweeper is and something can be merged with it; otherwise the block there. */
  function Front(size: Sizes, color: Colors, flMerge: Addr, sweepHp: Addr): Addr {
    if EndsAt(size, color, flMerge, sweepHp) && Sweepable(size, color, sweepHp + 1) then flMerge else sweepHp + 1
  }

  /** The sweeper is between two blocks. */
  ghost predicate NoSpan(size: Sizes, sweepHp: Addr) {
    forall a :: a in size ==> a + size[a] <= sweepHp || a > sweepHp
  }

  /** Headers after cutting `wosz` words from block `v` for a block of color `c`. */
  function SplitColor(size: Sizes, color: Colors, v: Addr, wosz: nat, c: Color): Colors
    requires v in size && size[v] >= wosz
  {
    if size[v] == wosz then color[v := c]
    else color[v := if size[v] - wosz - 1 <= BF_NUM_SMALL then White else Blue][SplitAddr(size, v, wosz) := c]
  }

  lemma FrontMoves(size: Sizes, color: Colors, flMerge: Addr, sweepHp: Addr, v: Addr, wosz: nat, c: Color)
    requires HeapOk(size, color) && NoSpan(size, sweepHp) && Sweepable(size, color, v) && size[v] >= wosz && c != Blue
    ensures NoSpan(SplitSize(size, v, wosz), sweepHp)
    ensures var front' := Front(SplitSize(size, v, wosz), SplitColor(size, color, v, wosz, c), flMerge, sweepHp);
            && Front(size, color, flMerge, sweepHp) <= front'
            && (size[v] > wosz && size[v] - wosz - 1 <= BF_NUM_SMALL && v - 1 < sweepHp ==> v < front')
  {
    assert forall b :: b in size && b > v ==> Apart(size, v, b);
    assert forall b :: b in size && b < v ==> Apart(size, b, v);
  }

  /** Whether the rest of a block goes back to the free set: always when it is large, never when it
      is empty, and otherwise unless the sweeper has still to come. */
  predicate Kept(size: Sizes, v: Addr, wosz: nat, sweeping: bool, sweepHp: Addr)
    requires v in size && size[v] >= wosz && v > 0
  {
    size[v] - wosz - 1 > BF_NUM_SMALL || (size[v] - wosz - 1 >= 1 && (!sweeping || v - 1 < sweepHp))
  }

  // ---------------------------------------------------------------- merging

  /** From block `a` on, blocks follow each other up to the end of the chunk. */
  ghost predicate Tiled(size: Sizes, a: Addr, limit: Addr) {
    limit + 1 !in size
    && forall b {:trigger Follows(size, b, limit)} :: b in size && a <= b <= limit ==> Follows(size, b, limit)
  }

  ghost predicate Follows(size: Sizes, b: Addr, limit: Addr)
    requires b in size
  {
    b + size[b] == limit || (b + size[b] < limit && b + size[b] + 1 in size)
  }

  lemma TiledLater(h: Heap, h': Heap, a: Addr, limit: Addr, start: Addr, hp: Addr)
    requires Tiled(h.size, a, limit) && a <= hp <= limit && SameOutside(h, h', start, hp + 1)
    ensures Tiled(h'.size, hp + 1, limit)
  {
    assert SameAt(h, h', limit + 1);
    forall b | b in h'.size && hp + 1 <= b <= limit ensures Follows(h'.size, b, limit) {
      assert SameAt(h, h', b) && Follows(h.size, b, limit) && SameAt(h, h', b + h.size[b] + 1);
    }
  }

  /** Every block below `start` ends before it. */
  ghost predicate EndsBelow(size: Sizes, start: Addr) {
    forall a :: a in size && a < start ==> a + size[a] < start
  }

  /** A list that is ready for the sweeper at `cur` is ready at `start` when nothing in it lies between. */
  lemma FrontBack(r: S.Lists, size: Sizes, color: Colors, start: Addr, cur: Addr)
    requires S.SmallOk(r, size, color) && S.AllSwept(r, color, cur)
    requires forall b :: b in r.blocks ==> b < start || b >= cur
    ensures S.AllSwept(r, color, start)
  {
    forall i: nat | 1 <= i <= BF_NUM_SMALL ensures S.SweptList(r, color, i, start) {
      assert S.SweptList(r, color, i, cur) && S.ListOk(r, size, color, i);
      var s := r.lists[i];
      assert forall k :: 0 <= k < |s| ==> s[k] in s;
    }
  }

  /** The headers from `start` up to `end` disappear. */
  function Cleared(size: Sizes, start: Addr, end: Addr): Sizes {
    map a | a in size && !(start <= a < end) :: size[a]
  }

  /** The headers of the heap and the free set. */
  datatype Heap = Heap(size: Sizes, color: Colors, free: set<Addr>)

  ghost predicate SameAt(h: Heap, h': Heap, a: Addr) {
    && (a in h'.size <==> a in h.size) && (a in h.size ==> h'.size[a] == h.size[a])
    && (a in h'.color <==> a in h.color) && (a in h.color ==> h'.color[a] == h.color[a])
    && (a in h'.free <==> a in h.free)
  }

  /** Nothing changes outside the words from `start` up to `end`. */
  ghost predicate SameOutside(h: Heap, h': Heap, start: Addr, end: Addr) {
    forall a: Addr {:trigger SameAt(h, h', a)} :: a < start || a >= end ==> SameAt(h, h', a)
  }

  lemma StaysSame(h: Heap, h': Heap, start: Addr, end: Addr, s: Addr, w: nat, c: Color, free: set<Addr>)
    requires SameOutside(h, h', start, end) && start <= s < end && (free == h'.free || free == h'.free + {s})
    ensures SameOutside(h, Heap(h'.size[s := w], h'.color[s := c], free), start, end)
  {
    var h2 := Heap(h'.size[s := w], h'.color[s := c], free);
    forall a: Addr | a < start || a >= end ensures SameAt(h, h2, a) {
      assert SameAt(h, h', a);
    }
  }

  /** The words from `start` up to `end` form one free block, or several of the greatest size and
      one more; a single word left over is a white fragment. */
  ghost predicate Refilled(h: Heap, start: Addr, end: Addr) {
    && start in h.size
    && forall a {:trigger Piece(h, a, end)} :: a in h.size && start <= a < end ==> Piece(h, a, end)
  }

  ghost predicate Piece(h: Heap, a: Addr, end: Addr)
    requires a in h.size
  {
    && (a + h.size[a] + 1 == end || (h.size[a] == MAX_WOSIZE && a + h.size[a] + 1 < end && a + h.size[a] + 1 in h.size))
    && if h.size[a] == 0 then S.IsWhite(h.color, a) && a !in h.free else S.IsBlue(h.color, a) && a in h.free
  }

  /** The pieces made so far, all of the greatest size. */
  ghost predicate FullPieces(h: Heap, start: Addr, s: Addr) {
    && start <= s && (s > start ==> start in h.size)
    && forall a {:trigger FullPiece(h, a, s)} :: a in h.size && start <= a < s ==> FullPiece(h, a, s)
  }

  /** A block of the greatest size, followed by the place `s` or another such block. */
  ghost predicate FullPiece(h: Heap, a: Addr, s: Addr)
    requires a in h.size
  {
    && h.size[a] == MAX_WOSIZE && (a + MAX_WOSIZE + 1 == s || (a + MAX_WOSIZE + 1 < s && a + MAX_WOSIZE + 1 in h.size))
    && S.IsBlue(h.color, a) && a in h.free
  }

  lemma AddFullPiece(h: Heap, start: Addr, s: Addr)
    requires FullPieces(h, start, s) && forall a :: a in h.size ==> a < s || a > s + MAX_WOSIZE
    ensures FullPieces(Heap(h.size[s := MAX_WOSIZE], h.color[s := Blue], h.free + {s}), start, s + (MAX_WOSIZE + 1))
  {
    var h' := Heap(h.size[s := MAX_WOSIZE], h.color[s := Blue], h.free + {s});
    forall a | a in h'.size && start <= a < s + (MAX_WOSIZE + 1) ensures FullPiece(h', a, s + (MAX_WOSIZE + 1)) {
      assert a != s ==> FullPiece(h, a, s);
    }
  }

  /** The last piece: a free block, or a fragment. */
  ghost function Filled(h: Heap, s: Addr, wosz: nat): Heap {
    Heap(h.size[s := wosz], h.color[s := if wosz > 0 then Blue else White], if wosz > 0 then h.free + {s} else h.free)
  }

  lemma EndPieces(h: Heap, start: Addr, s: Addr, wosz: nat)
    requires FullPieces(h, start, s) && wosz <= MAX_WOSIZE && s !in h.free
    requires forall a :: a in h.size ==> a < s || a > s + wosz
    ensures Refilled(Filled(h, s, wosz), start, s + wosz + 1)
  {
    var h' := Filled(h, s, wosz);
    forall a | a in h'.size && start <= a < s + wosz + 1 ensures Piece(h', a, s + wosz + 1) {
      assert a != s ==> FullPiece(h, a, s);
    }
  }
}
