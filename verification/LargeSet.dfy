// The set of large free blocks (freelist.c): a splay tree whose nodes head
// circular lists of blocks of equal size, and a pointer to the least block.

module LargeSet {
  import opened Basics
  import opened Trees
  import opened Rings
  import opened LargeTree

  /** The list fields of the blocks; the ring of each size; all the blocks. */
  datatype Lists = Lists(next: Links, prev: Links, isnode: map<Addr, bool>, rings: map<nat, seq<Addr>>, blocks: set<Addr>)

  ghost predicate RingOf(r: Lists, size: Sizes, z: nat, s: seq<Addr>) {
    && Ring(r.next, r.prev, s)
    && forall i :: 0 <= i < |s| ==> s[i] != NULL && s[i] in size && size[s[i]] == z && s[i] in r.isnode && (r.isnode[s[i]] <==> i == 0)
  }

  ghost predicate NodeOk(r: Lists, size: Sizes, a: Addr) {
    a in size && size[a] in r.rings && |r.rings[size[a]]| > 0 && r.rings[size[a]][0] == a
  }

  ghost predicate RingOk(r: Lists, size: Sizes, order: seq<Addr>, z: nat) {
    && z in r.rings && RingOf(r, size, z, r.rings[z]) && r.rings[z][0] in order
    && forall b :: b in r.rings[z] ==> b in r.blocks
  }

  ghost predicate BlockOk(r: Lists, size: Sizes, b: Addr) {
    b in size && size[b] in r.rings && b in r.rings[size[b]]
  }

  /** Every node of the tree heads the ring of its size, every ring has a node, and the blocks of
      the set are those of the rings. */
  ghost predicate RingsOk(r: Lists, size: Sizes, order: seq<Addr>) {
    && (forall a {:trigger NodeOk(r, size, a)} :: a in order ==> NodeOk(r, size, a))
    && (forall z {:trigger RingOk(r, size, order, z)} :: z in r.rings ==> RingOk(r, size, order, z))
    && forall b {:trigger BlockOk(r, size, b)} :: b in r.blocks ==> BlockOk(r, size, b)
  }

  /** The only block of the least size. */
  ghost predicate IsLeast(blocks: set<Addr>, size: Sizes, n: Addr) {
    n in blocks && n in size && forall b :: b in blocks && b != n ==> b in size && size[b] > size[n]
  }

  // ---------------------------------------------------------------- changing one ring

  /** Blocks of other sizes keep their list fields. */
  ghost predicate OnlySize(r: Lists, r': Lists, size: Sizes, z: nat) {
    && (forall a :: a in size && size[a] != z && a in r.next ==> a in r'.next && r'.next[a] == r.next[a])
    && (forall a :: a in size && size[a] != z && a in r.prev ==> a in r'.prev && r'.prev[a] == r.prev[a])
    && (forall a :: a in size && size[a] != z && a in r.isnode ==> a in r'.isnode && r'.isnode[a] == r.isnode[a])
  }

  /** Rings of other sizes are not touched by changes to blocks of size `z`. */
  lemma OtherRing(r: Lists, r': Lists, size: Sizes, order: seq<Addr>, order': seq<Addr>, z: nat, y: nat)
    requires RingOk(r, size, order, y) && y != z && OnlySize(r, r', size, z)
    requires y in r'.rings && r'.rings[y] == r.rings[y]
    requires forall a :: a in order && a in size && size[a] != z ==> a in order'
    requires forall b :: b in r.blocks && b in size && size[b] != z ==> b in r'.blocks
    ensures RingOk(r', size, order', y)
  {
    RingFrame(r.next, r.prev, r'.next, r'.prev, r.rings[y]);
    forall b | b in r.rings[y] ensures b in r'.blocks {
      var i :| 0 <= i < |r.rings[y]| && r.rings[y][i] == b;
    }
  }

  /** The ring of size `z` is replaced by `s`, its node by the head of `s`. */
  lemma ChangeRing(r: Lists, r': Lists, size: Sizes, order: seq<Addr>, order': seq<Addr>, z: nat, s: seq<Addr>)
    requires RingsOk(r, size, order) && OnlySize(r, r', size, z)
    requires r'.rings == r.rings[z := s] && RingOf(r', size, z, s)
    requires forall a :: a in order' <==> a == s[0] || (a in order && a in size && size[a] != z)
    requires forall b :: b in r'.blocks <==> b in s || (b in r.blocks && b in size && size[b] != z)
    ensures RingsOk(r', size, order')
  {
    forall y | y in r'.rings ensures RingOk(r', size, order', y) {
      if y != z {
        assert RingOk(r, size, order, y);
        OtherRing(r, r', size, order, order', z, y);
      }
    }
    forall a | a in order' ensures NodeOk(r', size, a) {
      assert a in order ==> NodeOk(r, size, a);
    }
    forall b | b in r'.blocks ensures BlockOk(r', size, b) {
      assert b in r.blocks ==> BlockOk(r, size, b);
    }
  }

  /** The ring of size `z` disappears. */
  lemma DropRing(r: Lists, r': Lists, size: Sizes, order: seq<Addr>, order': seq<Addr>, z: nat)
    requires RingsOk(r, size, order) && OnlySize(r, r', size, z)
    requires r'.rings == r.rings - {z}
    requires forall a :: a in order' <==> a in order && a in size && size[a] != z
    requires forall b :: b in r'.blocks <==> b in r.blocks && b in size && size[b] != z
    ensures RingsOk(r', size, order')
  {
    forall y | y in r'.rings ensures RingOk(r', size, order', y) {
      assert RingOk(r, size, order, y);
      OtherRing(r, r', size, order, order', z, y);
    }
    forall a | a in order' ensures NodeOk(r', size, a) { assert NodeOk(r, size, a); }
    forall b | b in r'.blocks ensures BlockOk(r', size, b) { assert BlockOk(r, size, b); }
  }

  lemma NodesAreBlocks(r: Lists, size: Sizes, order: seq<Addr>)
    requires RingsOk(r, size, order)
    ensures forall a :: a in order ==> a in r.blocks && a in size
    ensures forall b :: b in r.blocks ==> b in size
  {
    forall b | b in r.blocks ensures b in size { assert BlockOk(r, size, b); }
    forall a | a in order ensures a in r.blocks && a in size {
      assert NodeOk(r, size, a) && RingOk(r, size, order, size[a]);
      assert r.rings[size[a]][0] in r.rings[size[a]];
    }
  }

  /** Without a node of size `z` there is no block of that size. */
  lemma NoRing(r: Lists, size: Sizes, order: seq<Addr>, z: nat)
    requires RingsOk(r, size, order) && forall a :: a in order && a in size ==> size[a] != z
    ensures z !in r.rings && forall b :: b in r.blocks ==> b in size && size[b] != z
    ensures forall a :: a in order ==> a in size
  {
    NodesAreBlocks(r, size, order);
    assert z in r.rings ==> RingOk(r, size, order, z);
    forall b | b in r.blocks && b in size ensures size[b] != z { assert BlockOk(r, size, b); }
  }

  /** The node of size `z` heads the ring of all blocks of that size. */
  lemma OneOfSize(r: Lists, size: Sizes, order: seq<Addr>, z: nat)
    requires RingsOk(r, size, order) && z in r.rings
    ensures RingOf(r, size, z, r.rings[z]) && r.rings[z] != [] && r.rings[z][0] in order
    ensures forall a :: a in order ==> a in size && (size[a] == z <==> a == r.rings[z][0])
    ensures forall b :: b in r.blocks ==> b in size
    ensures forall b :: b in r.rings[z] <==> b in r.blocks && size[b] == z
  {
    NodesAreBlocks(r, size, order);
    assert RingOk(r, size, order, z);
    forall a | a in order && a in size && size[a] == z ensures a == r.rings[z][0] { assert NodeOk(r, size, a); }
    forall b | b in r.blocks && b in size && size[b] == z ensures b in r.rings[z] { assert BlockOk(r, size, b); }
  }

  // ---------------------------------------------------------------- the list operations

  /** `n` becomes a node with a ring of its own. */
  ghost function Added(r: Lists, size: Sizes, n: Addr): Lists
    requires n in size
  {
    Lists(r.next[n := n], r.prev[n := n], r.isnode[n := true], r.rings[size[n] := [n]], r.blocks + {n})
  }

  lemma AddedOk(r: Lists, size: Sizes, order: seq<Addr>, order': seq<Addr>, n: Addr)
    requires RingsOk(r, size, order) && n in size && n != NULL
    requires forall a :: a in order && a in size ==> size[a] != size[n]
    requires forall a :: a in order' <==> a == n || a in order
    ensures RingsOk(Added(r, size, n), size, order')
  {
    var z, r' := size[n], Added(r, size, n);
    NoRing(r, size, order, z);
    NewRing(r.next, r.prev, n);
    ChangeRing(r, r', size, order, order', z, [n]);
  }

  /** `n` goes to the tail of the ring of node `x`. */
  ghost function Appended(r: Lists, size: Sizes, x: Addr, n: Addr): Lists
    requires x in r.prev && n in size && size[n] in r.rings
  {
    var last, z := r.prev[x], size[n];
    Lists(r.next[n := x][last := n], r.prev[n := last][x := n], r.isnode[n := false],
          r.rings[z := r.rings[z] + [n]], r.blocks + {n})
  }

  lemma AppendedOk(r: Lists, size: Sizes, order: seq<Addr>, x: Addr, n: Addr)
    requires RingsOk(r, size, order) && x in order && n != NULL && n in size && n !in r.blocks && x in size
             && size[x] == size[n]
    ensures size[n] in r.rings && x in r.prev && RingsOk(Appended(r, size, x, n), size, order)
  {
    var z := size[n];
    assert NodeOk(r, size, x);
    var s := r.rings[z];
    OneOfSize(r, size, order, z);
    RingAppend(r.next, r.prev, s, n);
    SingleRing(r.next, r.prev, s);
    assert RingOf(Appended(r, size, x, n), size, z, s + [n]);
    ChangeRing(r, Appended(r, size, x, n), size, order, order, z, s + [n]);
  }

  /** Block `b`, at position `i` of its ring of several blocks, is unlinked; a new head becomes a node. */
  ghost function Unlinked(r: Lists, size: Sizes, b: Addr, i: nat): Lists
    requires b in size && size[b] in r.rings && b in r.next && b in r.prev
    requires var s := r.rings[size[b]]; i < |s| && |s| > 1
  {
    var s := r.rings[size[b]];
    Lists(r.next[r.prev[b] := r.next[b]], r.prev[r.next[b] := r.prev[b]],
          if i == 0 then r.isnode[s[1] := true] else r.isnode, r.rings[size[b] := Without(s, i)], r.blocks - {b})
  }

  lemma UnlinkedOk(r: Lists, size: Sizes, order: seq<Addr>, order': seq<Addr>, b: Addr, i: nat)
    requires RingsOk(r, size, order) && b in size && size[b] in r.rings
    requires var s := r.rings[size[b]]; i < |s| && |s| > 1 && s[i] == b
    requires var s := r.rings[size[b]];
             forall a :: a in order' <==> a == (if i == 0 then s[1] else s[0]) || (a in order && a in size && size[a] != size[b])
    ensures b in r.next && b in r.prev && RingsOk(Unlinked(r, size, b, i), size, order')
  {
    var z := size[b];
    var s := r.rings[z];
    OneOfSize(r, size, order, z);
    RingRemove(r.next, r.prev, s, i);
    var r', u := Unlinked(r, size, b, i), Without(s, i);
    assert forall k :: 0 <= k < |u| ==> u[k] == s[if k < i then k else k + 1];
    UnlinkedOthers(r, size, order, b, i);
    assert RingOf(r', size, z, u);
    forall x ensures x in r'.blocks <==> x in u || (x in r.blocks && x in size && size[x] != z) {
      WithoutIn(s, i, x);
    }
    ChangeRing(r, r', size, order, order', z, u);
  }

  lemma WithoutIn(s: seq<Addr>, i: nat, x: Addr)
    requires i < |s| && Distinct(s)
    ensures x in Without(s, i) <==> x in s && x != s[i]
  {
    var u := Without(s, i);
    assert forall k :: 0 <= k < |u| ==> u[k] == s[if k < i then k else k + 1];
    if x in s && x != s[i] {
      var k :| 0 <= k < |s| && s[k] == x;
      assert u[if k < i then k else k - 1] == x;
    }
  }

  lemma UnlinkedOthers(r: Lists, size: Sizes, order: seq<Addr>, b: Addr, i: nat)
    requires RingsOk(r, size, order) && b in size && size[b] in r.rings
    requires var s := r.rings[size[b]]; i < |s| && |s| > 1 && s[i] == b
    ensures b in r.next && b in r.prev && OnlySize(r, Unlinked(r, size, b, i), size, size[b])
  {
    var s := r.rings[size[b]];
    OneOfSize(r, size, order, size[b]);
    var j := if i == 0 then |s| - 1 else i - 1;
    assert Linked(r.next, r.prev, s, i) && Linked(r.next, r.prev, s, j);
    assert r.next[b] == s[Succ(i, |s|)] && r.prev[b] == s[j];
  }

  /** The lone block `b` of its size leaves. */
  ghost function Dropped(r: Lists, size: Sizes, b: Addr): Lists
    requires b in size
  {
    r.(rings := r.rings - {size[b]}, blocks := r.blocks - {b})
  }

  lemma DroppedOk(r: Lists, size: Sizes, order: seq<Addr>, order': seq<Addr>, b: Addr)
    requires RingsOk(r, size, order) && b in order && b in size && size[b] in r.rings && |r.rings[size[b]]| == 1
    requires forall a :: a in order' <==> a in order && a != b
    ensures RingsOk(Dropped(r, size, b), size, order')
  {
    OneOfSize(r, size, order, size[b]);
    assert r.rings[size[b]] == [b];
    DropRing(r, Dropped(r, size, b), size, order, order', size[b]);
  }

  /** Taking the node `sub.a`, alone in its ring, out of the tree. */
  lemma NodeDropped(r: Lists, size: Sizes, c: Ctx, sub: Tree)
    requires sub.Node? && RingsOk(r, size, InOrder(Plug(c, sub))) && Sorted(size, InOrder(Plug(c, sub)))
    requires sub.a in size && size[sub.a] in r.rings && r.rings[size[sub.a]] == [sub.a]
    ensures RingsOk(Dropped(r, size, sub.a), size, Before(c) + (InOrder(sub.left) + InOrder(sub.right)) + After(c))
  {
    InPlug(c, sub);
    OthersStay(size, c, sub);
    PlugInOrder(c, sub);
    DroppedOk(r, size, InOrder(Plug(c, sub)), Before(c) + (InOrder(sub.left) + InOrder(sub.right)) + After(c), sub.a);
  }

  /** What a block says about its ring. */
  lemma BlockFacts(r: Lists, size: Sizes, order: seq<Addr>, b: Addr)
    requires RingsOk(r, size, order) && b in r.blocks
    ensures b in size && size[b] in r.rings && b in r.rings[size[b]] && Ring(r.next, r.prev, r.rings[size[b]])
    ensures b in r.isnode && b in r.next && b in r.prev && r.rings[size[b]][0] in order
    ensures r.isnode[b] <==> b == r.rings[size[b]][0]
    ensures b == r.rings[size[b]][0] ==> (r.next[b] == b <==> |r.rings[size[b]]| == 1)
    ensures b == r.rings[size[b]][0] && |r.rings[size[b]]| > 1 ==> r.next[b] == r.rings[size[b]][1]
  {
    assert BlockOk(r, size, b);
    var s := r.rings[size[b]];
    OneOfSize(r, size, order, size[b]);
    SingleRing(r.next, r.prev, s);
    var i :| 0 <= i < |s| && s[i] == b;
  }

  /** Removing the root of `sub` leaves all other nodes. */
  lemma OthersStay(size: Sizes, c: Ctx, sub: Tree)
    requires sub.Node? && Sorted(size, InOrder(Plug(c, sub)))
    ensures var s := Before(c) + (InOrder(sub.left) + InOrder(sub.right)) + After(c);
            forall a :: a in s <==> a in InOrder(Plug(c, sub)) && a != sub.a
  {
    PlugInOrder(c, sub);
    AtNode(size, c, sub);
    FiveParts(Before(c), InOrder(sub.left), sub.a, InOrder(sub.right), After(c));
    DropMiddle(Before(c), InOrder(sub.left), InOrder(sub.right), After(c));
  }

  /** The block after the head of a ring. */
  lemma HeadFacts(r: Lists, size: Sizes, order: seq<Addr>, b: Addr)
    requires RingsOk(r, size, order) && b in size && size[b] in r.rings
    requires |r.rings[size[b]]| > 1 && r.rings[size[b]][0] == b
    ensures var n := r.rings[size[b]][1];
            && b in order && b in r.next && b in r.prev && r.next[b] == n
            && n != NULL && n in r.blocks && n in size && size[n] == size[b] && n !in order && n != b
  {
    var s := r.rings[size[b]];
    OneOfSize(r, size, order, size[b]);
    assert s[1] in s;
    SingleRing(r.next, r.prev, s);
  }

  /** The search for the size of a node ends at that node. */
  lemma NodeFound(size: Sizes, order: seq<Addr>, c: Ctx, sub: Tree, b: Addr)
    requires Sorted(size, order) && order == InOrder(Plug(c, sub)) && b in order
    requires AllBelow(size, Before(c), size[b]) && AllAbove(size, After(c), size[b])
    requires sub.Node? ==> sub.a in order && size[sub.a] == size[b]
    ensures sub.Node? && sub.a == b
  {
    PlugInOrder(c, sub);
    assert b in InOrder(sub);
  }

  lemma HeadReplaced(size: Sizes, x: seq<Addr>, b: Addr, n: Addr, y: seq<Addr>)
    requires Sorted(size, x + [b] + y)
    ensures forall a :: a in x + [n] + y <==> a == n || (a in x + [b] + y && a in size && size[a] != size[b])
  {
    SortedParts(size, x, b, y);
  }

  /** `n` has the least size that fits `wosz`. */
  ghost predicate BestOf(blocks: set<Addr>, size: Sizes, wosz: nat, n: Addr) {
    n in size && size[n] >= wosz && forall b :: b in blocks ==> b in size && (size[b] >= wosz ==> size[b] >= size[n])
  }

  /** Smaller blocks are not larger than `bound`. */
  ghost predicate RoomAbove(blocks: set<Addr>, size: Sizes, n: Addr, bound: nat) {
    n in size && forall b :: b in blocks && b in size && size[b] < size[n] ==> size[b] <= bound
  }

  /** Every block has the size of some node. */
  lemma BlocksLikeNodes(r: Lists, size: Sizes, order: seq<Addr>)
    requires RingsOk(r, size, order)
    ensures forall b :: b in r.blocks ==> b in size && exists a :: a in order && a in size && size[a] == size[b]
  {
    forall b | b in r.blocks ensures b in size && exists a :: a in order && a in size && size[a] == size[b] {
      assert BlockOk(r, size, b);
      OneOfSize(r, size, order, size[b]);
    }
  }

  lemma BestNode(size: Sizes, order: seq<Addr>, x: seq<Addr>, n: Addr, y: seq<Addr>, wosz: nat, bound: nat)
    requires order == x + [n] + y && n in size && size[n] >= wosz
    requires AllBelow(size, x, wosz) && AllBelow(size, x, bound + 1) && AllAbove(size, y, size[n])
    ensures forall a :: a in order ==> a in size && (a == n || size[a] < wosz || size[a] > size[n])
    ensures forall a :: a in order && size[a] < size[n] ==> size[a] <= bound
  {
  }

  /** What holds of the nodes holds of all blocks. */
  lemma BestBlock(r: Lists, size: Sizes, order: seq<Addr>, n: Addr, wosz: nat, bound: nat)
    requires RingsOk(r, size, order) && n in order && n in size && size[n] >= wosz
    requires forall a :: a in order ==> a in size && (a == n || size[a] < wosz || size[a] > size[n])
    requires forall a :: a in order && a in size && size[a] < size[n] ==> size[a] <= bound
    ensures n in r.blocks && BestOf(r.blocks, size, wosz, n) && RoomAbove(r.blocks, size, n, bound)
  {
    NodesAreBlocks(r, size, order);
    BlocksLikeNodes(r, size, order);
  }

  lemma ShrunkOrder(r: Lists, size: Sizes, order: seq<Addr>, n: Addr, w: nat)
    requires RingsOk(r, size, order) && Sorted(size, order) && AllAbove(size, order, BF_NUM_SMALL)
    requires n in r.blocks && n in size && size[n] in r.rings && r.rings[size[n]] == [n]
    requires BF_NUM_SMALL < w <= size[n] && RoomAbove(r.blocks, size, n, w - 1)
    ensures Sorted(size[n := w], order) && AllAbove(size[n := w], order, BF_NUM_SMALL)
  {
    NodesAreBlocks(r, size, order);
    OneOfSize(r, size, order, size[n]);
    var size' := size[n := w];
    forall i, j | 0 <= i < j < |order| ensures size'[order[i]] < size'[order[j]] {
      assert size[order[i]] < size[order[j]];
      assert order[i] in r.blocks && order[j] in order;
    }
  }

  lemma ShrunkRings(r: Lists, size: Sizes, order: seq<Addr>, n: Addr, w: nat)
    requires RingsOk(r, size, order)
    requires n in r.blocks && n in size && size[n] in r.rings && r.rings[size[n]] == [n]
    requires 0 < w <= size[n] && RoomAbove(r.blocks, size, n, w - 1)
    ensures RingsOk(r.(rings := (r.rings - {size[n]})[w := [n]]), size[n := w], order)
  {
    var z, size' := size[n], size[n := w];
    var r' := r.(rings := (r.rings - {z})[w := [n]]);
    NodesAreBlocks(r, size, order);
    OneOfSize(r, size, order, z);
    forall y | y in r'.rings ensures RingOk(r', size', order, y) {
      if y != w {
        assert RingOk(r, size, order, y);
        forall i | 0 <= i < |r.rings[y]| ensures r.rings[y][i] != n { assert size[r.rings[y][i]] == y; }
      }
    }
    forall a | a in order ensures NodeOk(r', size', a) {
      assert NodeOk(r, size, a);
    }
    forall b | b in r.blocks ensures BlockOk(r', size', b) {
      assert BlockOk(r, size, b);
    }
  }

  class LargeSet {
    const mem: Headers
    const t: LargeTree
    var next: Links
    var prev: Links
    var isnode: map<Addr, bool>
    var least: Addr
    ghost var rings: map<nat, seq<Addr>>
    ghost var blocks: set<Addr>

    ghost function L(): Lists
      reads `next, `prev, `isnode, `rings, `blocks
    {
      Lists(next, prev, isnode, rings, blocks)
    }

    ghost predicate SetOk()
      reads `next, `prev, `isnode, `rings, `blocks, t, mem`size
    {
      t.mem == mem && t.TreeOk() && RingsOk(L(), mem.size, t.Order())
    }

    ghost predicate Valid()
      reads this, t, mem`size
    {
      SetOk() && (least != NULL ==> IsLeast(blocks, mem.size, least))
    }

    constructor (mem: Headers)
      ensures Valid() && fresh(t) && blocks == {} && this.mem == mem
    {
      this.mem := mem;
      t := new LargeTree(mem);
      next, prev, isnode, least, rings, blocks := map[], map[], map[], NULL, map[], {};
    }

    // -------------------------------------------------------------- insertion

    /** bf_insert_block */
    method InsertBlock(n: Addr)
      requires Valid() && n !in blocks && n != NULL && n in mem.size && mem.size[n] > BF_NUM_SMALL
      modifies this, t
      ensures Valid() && blocks == old(blocks) + {n}
    {
      LeastForInsertion(n);
      InsertInTree(n);
    }

    method InsertInTree(n: Addr)
      requires SetOk() && n !in blocks && n != NULL && n in mem.size && mem.size[n] > BF_NUM_SMALL
      modifies `next, `prev, `isnode, `rings, `blocks, t
      ensures SetOk() && blocks == old(blocks) + {n}
    {
      var sz := mem.size[n];
      var p, c, sub := t.Search(sz);
      t.DerefAt(c, sub);
      var x := t.Deref(p);
      if x == NULL {
        AddNode(p, n, c);
      } else {
        AppendAndSplay(x, n, sz);
      }
    }

    method AppendAndSplay(x: Addr, n: Addr, sz: nat)
      requires SetOk() && x in t.Order() && n != NULL
      requires n !in blocks && n in mem.size && x in mem.size && mem.size[x] == mem.size[n]
      modifies `next, `prev, `isnode, `rings, `blocks, t
      ensures SetOk() && blocks == old(blocks) + {n}
    {
      AppendToRing(x, n);
      t.Splay(sz);
    }

    /** The least pointer moves to a smaller block, and is lost when a second least block comes. */
    method LeastForInsertion(n: Addr)
      requires Valid() && n !in blocks && n in mem.size
      modifies `least
      ensures least != NULL ==> IsLeast(blocks + {n}, mem.size, least)
    {
      if least != NULL {
        var sz, leastSz := mem.size[n], mem.size[least];
        if sz < leastSz {
          least := n;
        } else if sz == leastSz {
          least := NULL;
        }
      }
    }

    /** A block of a size that the tree does not have yet. */
    method AddNode(p: Loc, n: Addr, ghost c: Ctx)
      requires SetOk() && t.At(c, Leaf) && p == LocOf(c)
      requires n !in blocks && n != NULL && n in mem.size && mem.size[n] > BF_NUM_SMALL
      requires AllBelow(mem.size, Before(c), mem.size[n]) && AllAbove(mem.size, After(c), mem.size[n])
      modifies `next, `prev, `isnode, `rings, `blocks, t
      ensures SetOk() && blocks == old(blocks) + {n}
    {
      ghost var order := t.Order();
      PlugInOrder(c, Leaf);
      assert order == Before(c) + After(c);
      NodesAreBlocks(L(), mem.size, order);
      isnode := isnode[n := true];
      t.AddAt(p, n, c);
      prev, next := prev[n := n], next[n := n];
      rings, blocks := rings[mem.size[n] := [n]], blocks + {n};
      assert L() == Added(old(L()), mem.size, n);
      AddedOk(old(L()), mem.size, order, t.Order(), n);
    }

    /** A block of the same size as node `x` goes to the tail of its list. */
    method AppendToRing(x: Addr, n: Addr)
      requires SetOk() && x in t.Order() && n != NULL
      requires n !in blocks && n in mem.size && x in mem.size && mem.size[x] == mem.size[n]
      modifies `next, `prev, `isnode, `rings, `blocks
      ensures SetOk() && blocks == old(blocks) + {n}
    {
      AppendedOk(L(), mem.size, t.Order(), x, n);
      isnode := isnode[n := false];
      var last := prev[x];
      prev, next := prev[n := last], next[n := x];
      next := next[last := n];
      prev := prev[x := n];
      rings, blocks := rings[mem.size[n] := rings[mem.size[n]] + [n]], blocks + {n};
      assert L() == Appended(old(L()), mem.size, x, n);
    }

    // -------------------------------------------------------------- removal

    /** The part of bf_remove for large blocks. */
    method RemoveBlock(b: Addr)
      requires Valid() && b in blocks
      modifies this, t
      ensures Valid() && blocks == old(blocks) - {b}
    {
      BlockFacts(L(), mem.size, t.Order(), b);
      OneOfSize(L(), mem.size, t.Order(), mem.size[b]);
      if isnode[b] {
        if next[b] == b {
          RemoveNode(b);
        } else {
          HeadFacts(L(), mem.size, t.Order(), b);
          RemoveHead(b);
        }
      } else {
        Unlink(b);
      }
    }

    /** bf_search and bf_remove_node for the lone block of its size. */
    method RemoveNode(b: Addr)
      requires Valid() && b in mem.size && b in t.Order() && mem.size[b] in rings && rings[mem.size[b]] == [b]
      modifies `least, `rings, `blocks, t
      ensures Valid() && blocks == old(blocks) - {b}
    {
      var p, c, sub := t.Search(mem.size[b]);
      NodeFound(mem.size, t.Order(), c, sub, b);
      RemoveNodeAt(p, b, c, sub);
    }

    /** bf_remove_node at a node with a single block. */
    method RemoveNodeAt(p: Loc, b: Addr, ghost c: Ctx, ghost sub: Tree)
      requires Valid() && t.At(c, sub) && p == LocOf(c) && sub.Node? && sub.a == b
      requires b in mem.size && mem.size[b] in rings && rings[mem.size[b]] == [b]
      modifies `least, `rings, `blocks, t
      ensures Valid() && blocks == old(blocks) - {b}
    {
      ghost var r := Dropped(L(), mem.size, b);
      NodeDropped(L(), mem.size, c, sub);
      if b == least { least := NULL; }
      t.RemoveAt(p, c, sub);
      rings, blocks := rings - {mem.size[b]}, blocks - {b};
      assert L() == r;
    }

    /** The next block of its list takes the place of node `b`. */
    method RemoveHead(b: Addr)
      requires SetOk() && b in blocks && b in mem.size && mem.size[b] in rings
      requires |rings[mem.size[b]]| > 1 && rings[mem.size[b]][0] == b
      modifies `next, `prev, `isnode, `rings, `blocks, t
      ensures SetOk() && blocks == old(blocks) - {b}
    {
      ghost var z, order := mem.size[b], t.Order();
      ghost var s := rings[z];
      var p, c, sub := t.Search(mem.size[b]);
      HeadFacts(L(), mem.size, order, b);
      var n := next[b];
      NodeFound(mem.size, order, c, sub, b);
      t.ReplaceAt(p, b, n, c, sub);
      HeadReplaced(mem.size, Before(c) + InOrder(sub.left), b, n, InOrder(sub.right) + After(c));
      UnlinkedOk(L(), mem.size, order, t.Order(), b, 0);
      next, prev := next[prev[b] := n], prev[n := prev[b]];
      isnode := isnode[n := true];
      rings, blocks := rings[z := Without(s, 0)], blocks - {b};
      assert L() == Unlinked(old(L()), mem.size, b, 0);
    }

    /** A block that is not a node leaves its list. */
    method Unlink(b: Addr)
      requires Valid() && b in blocks && b in mem.size && mem.size[b] in rings
      requires rings[mem.size[b]] != [] && rings[mem.size[b]][0] != b
      modifies `next, `prev, `rings, `blocks
      ensures Valid() && blocks == old(blocks) - {b}
    {
      ghost var s := rings[mem.size[b]];
      BlockFacts(L(), mem.size, t.Order(), b);
      OneOfSize(L(), mem.size, t.Order(), mem.size[b]);
      ghost var i :| 0 <= i < |s| && s[i] == b;
      UnlinkedOk(L(), mem.size, t.Order(), t.Order(), b, i);
      next, prev := next[prev[b] := next[b]], prev[next[b] := prev[b]];
      rings, blocks := rings[mem.size[b] := Without(s, i)], blocks - {b};
      assert L() == Unlinked(old(L()), mem.size, b, i);
    }

    // -------------------------------------------------------------- allocation

    /** bf_search_best: the least block that is large enough, as a node, and the bound below which
        the size of that node cannot fall without breaking the order of the tree. */
    method FindBest(wosz: nat) returns (found: bool, p: Loc, bound: nat, ghost c: Ctx, ghost sub: Tree)
      requires SetOk()
      ensures !found ==> forall b :: b in blocks ==> b in mem.size && mem.size[b] < wosz
      ensures found ==>
                && t.At(c, sub) && p == LocOf(c) && sub.Node? && sub.a in blocks && sub.a in mem.size
                && BestOf(blocks, mem.size, wosz, sub.a)
                && RoomAbove(blocks, mem.size, sub.a, bound)
                && (bound == wosz == mem.size[sub.a] || bound == BF_NUM_SMALL || BF_NUM_SMALL < bound < wosz)
    {
      found, p, bound, c, sub := t.SearchBest(wosz);
      BlocksLikeNodes(L(), mem.size, t.Order());
      if found {
        InPlug(c, sub);
        PlugInOrder(c, sub);
        FiveParts(Before(c), InOrder(sub.left), sub.a, InOrder(sub.right), After(c));
        BestNode(mem.size, t.Order(), Before(c) + InOrder(sub.left), sub.a, InOrder(sub.right) + After(c), wosz, bound);
        BestBlock(L(), mem.size, t.Order(), sub.a, wosz, bound);
      }
    }

    /** A node with a single block shrinks but stays above all smaller blocks: the header changes,
        the block keeps its place in the tree. */
    method Shrink(n: Addr, w: nat)
      requires Valid() && n in blocks && n in mem.size && mem.size[n] in rings && rings[mem.size[n]] == [n]
      requires BF_NUM_SMALL < w <= mem.size[n] && RoomAbove(blocks, mem.size, n, w - 1)
      modifies `rings, mem`size
      ensures Valid() && mem.size == old(mem.size)[n := w]
    {
      ghost var z, size, order := mem.size[n], mem.size, t.Order();
      ShrunkOrder(L(), size, order, n, w);
      ShrunkRings(L(), size, order, n, w);
      mem.size := mem.size[n := w];
      rings := (rings - {z})[w := [n]];
    }
  }
}
