// The best-fit allocation policy (freelist.c): allocation from the lists of
// small blocks, from the least large block or from the tree, and the sweeper's
// merging of free blocks.

module BestFit {
  import opened Basics
  import opened Trees
  import opened LargeTree
  import opened FreeSet
  import opened SweptHeap
  import S = SmallLists
  import G = LargeSet

  ghost predicate NoneFits(free: set<Addr>, size: Sizes, wosz: nat) {
    forall b :: b in free ==> b in size && size[b] < wosz
  }

  lemma FirstTwo(s: seq<Addr>)
    requires Distinct(s)
    ensures |s| > 1 ==> s[0] != s[1]
  {
  }

  lemma SortedFirst(size: Sizes, s: seq<Addr>)
    requires Sorted(size, s) && s != []
    ensures s[0] in size && forall a :: a in s ==> a in size && size[s[0]] <= size[a]
  {
    assert s[0] in s;
  }

  /** The least large block that fits is the least block that fits when no small one does. */
  lemma WidenBest(sm: set<Addr>, lg: set<Addr>, size: Sizes, wosz: nat, v: Addr)
    requires forall b :: b in sm ==> b in size && size[b] < wosz
    ensures G.BestOf(lg, size, wosz, v) ==> G.BestOf(sm + lg, size, wosz, v)
    ensures NoneFits(lg, size, wosz) ==> NoneFits(sm + lg, size, wosz)
  {
  }

  class BestFit {
    const mem: Headers
    const small: S.SmallLists
    const large: G.LargeSet
    var curWsz: int
    var sweeping: bool
    var sweepHp: Addr
    var flMerge: Addr

    /** The free set. */
    ghost function Free(): set<Addr>
      reads small, large
    {
      small.blocks + large.blocks
    }

    ghost function H(): Heap
      reads mem, small, large
    {
      Heap(mem.size, mem.color, Free())
    }

    ghost predicate Core()
      reads this, mem, small, large, large.t
    {
      && small.mem == mem && large.mem == mem && small.Valid() && large.Valid()
      && HeapOk(mem.size, mem.color)
      && forall b :: b in large.blocks ==> S.IsBlue(mem.color, b)
    }

    ghost predicate SweepReady()
      reads this, mem, small
    {
      sweeping ==> NoSpan(mem.size, sweepHp) && S.AllSwept(small.L(), mem.color, Front(mem.size, mem.color, flMerge, sweepHp))
    }

    /** caml_fl_cur_wsz is the number of words in the free set; free blocks do not overlap; every
        blue block is in the free set; the lists are ready for the sweeper. */
    ghost predicate Valid()
      reads this, mem, small, large, large.t
    {
      && Core() && SweepReady()
      && curWsz == Weight(mem.size, Free())
      && forall a :: a in mem.size && S.IsBlue(mem.color, a) ==> a in Free()
    }

    /** Block `v` has been taken out of the free set and is still counted. */
    ghost predicate Loose(v: Addr)
      reads this, mem, small, large, large.t
    {
      && Core() && SweepReady() && Sweepable(mem.size, mem.color, v) && v !in Free()
      && curWsz == Weight(mem.size, Free()) + mem.size[v] + 1
      && forall a :: a in mem.size && a != v && S.IsBlue(mem.color, a) ==> a in Free()
    }

    lemma FreeFacts()
      requires Core()
      ensures forall b :: b in small.blocks ==> b in mem.size && 1 <= mem.size[b] <= BF_NUM_SMALL && b in small.lists[mem.size[b]]
      ensures forall b :: b in large.blocks ==> b in mem.size && mem.size[b] > BF_NUM_SMALL
      ensures forall b :: b in Free() ==> Sweepable(mem.size, mem.color, b)
    {
      forall b | b in small.blocks ensures b in mem.size && 1 <= mem.size[b] <= BF_NUM_SMALL && b in small.lists[mem.size[b]] {
        assert S.BlockOk(small.L(), mem.size, b);
      }
      forall b | b in small.blocks ensures Sweepable(mem.size, mem.color, b) {
        assert S.BlockOk(small.L(), mem.size, b) && S.ListOk(small.L(), mem.size, mem.color, mem.size[b]);
      }
      G.BlocksLikeNodes(large.L(), mem.size, large.t.Order());
    }

    /** Writing headers of blocks that are not in the free set. */
    method SetHeaders(size: Sizes, color: Colors)
      requires Core() && HeapOk(size, color)
      requires forall b :: b in Free() && b in mem.size ==> b in size && size[b] == mem.size[b] && color[b] == mem.color[b]
      modifies mem
      ensures Core() && mem.size == size && mem.color == color
      ensures forall front :: S.AllSwept(small.L(), old(mem.color), front) ==> S.AllSwept(small.L(), color, front)
    {
      FreeFacts();
      SmallFrame(small.L(), mem.size, mem.color, size, color);
      forall front | S.AllSwept(small.L(), mem.color, front) ensures S.AllSwept(small.L(), color, front) {
        SweptFrame(small.L(), mem.size, mem.color, color, front);
      }
      RingsFrame(large.L(), mem.size, large.t.Order(), size);
      G.NodesAreBlocks(large.L(), mem.size, large.t.Order());
      OrderFrame(mem.size, large.t.Order(), size);
      mem.size, mem.color := size, color;
    }

    /** bf_init */
    constructor (mem: Headers)
      requires HeapOk(mem.size, mem.color) && forall a :: a in mem.size ==> !S.IsBlue(mem.color, a)
      ensures Valid() && Free() == {} && this.mem == mem && !sweeping
      ensures fresh(small) && fresh(large) && fresh(large.t)
    {
      this.mem := mem;
      small := new S.SmallLists(mem);
      large := new G.LargeSet(mem);
      curWsz, sweeping, sweepHp, flMerge := 0, false, 0, NULL;
    }

    // -------------------------------------------------------------- allocation

    /** What allocation does to the free set: `wosz` words are cut from the upper end of block `v`. */
    ghost predicate Cuts(free: set<Addr>, size: Sizes, v: Addr, wosz: nat, r: Addr)
      reads this, mem, small, large
    {
      && v in size && size[v] >= wosz && v > 0
      && r == SplitAddr(size, v, wosz) && mem.size == SplitSize(size, v, wosz)
      && Free() == if Kept(size, v, wosz, sweeping, sweepHp) then free + {v} else free - {v}
    }

    /** The headers of the two parts of block `v`; the caller of the allocator writes the one of the
        new block, with a color other than blue. */
    method WriteHeaders(v: Addr, wosz: nat, c: Color)
      requires Core() && SweepReady() && Sweepable(mem.size, mem.color, v) && v !in Free() && mem.size[v] >= wosz
               && c != Blue
      modifies mem
      ensures Core() && SweepReady() && v in old(mem.size)
      ensures mem.size == SplitSize(old(mem.size), v, wosz)
              && mem.color == SplitColor(old(mem.size), old(mem.color), v, wosz, c)
      ensures old(mem.size)[v] > wosz ==>
                && SplitAddr(old(mem.size), v, wosz) !in old(mem.size)
                && (sweeping && mem.size[v] <= BF_NUM_SMALL && v - 1 < sweepHp ==> v < Front(mem.size, mem.color, flMerge, sweepHp))
    {
      ghost var size, color := mem.size, mem.color;
      var r, rem := v + (mem.size[v] - wosz), mem.size[v] - wosz - 1;
      FreeFacts();
      if sweeping { FrontMoves(size, color, flMerge, sweepHp, v, wosz, c); }
      if mem.size[v] == wosz {
        SetHeaders(mem.size, mem.color[v := c]);
      } else {
        SplitHeap(size, color, v, wosz, SplitColor(size, color, v, wosz, c));
        SetHeaders(mem.size[v := rem][r := wosz], mem.color[v := if rem <= BF_NUM_SMALL then White else Blue][r := c]);
      }
      if sweeping {
        S.LaterFront(small.L(), mem.color, Front(size, color, flMerge, sweepHp),
            Front(mem.size, mem.color, flMerge, sweepHp));
      }
    }

    /** bf_split on a block that is not in the free set. */
    method Split(v: Addr, wosz: nat, c: Color) returns (r: Addr)
      requires Loose(v) && mem.size[v] > wosz && c != Blue
      modifies mem, `curWsz
      ensures Core() && SweepReady() && v !in Free() && v in old(mem.size) && r == SplitAddr(old(mem.size), v, wosz)
      ensures mem.size == SplitSize(old(mem.size), v, wosz)
              && mem.color == SplitColor(old(mem.size), old(mem.color), v, wosz, c)
      ensures curWsz == Weight(mem.size, Free()) && r != v && v in mem.size
      ensures forall a :: a in mem.size && a != v && S.IsBlue(mem.color, a) ==> a in Free()
      ensures sweeping && mem.size[v] <= BF_NUM_SMALL && v - 1 < sweepHp ==> v < Front(mem.size, mem.color, flMerge, sweepHp)
    {
      ghost var size := mem.size;
      r := v + (mem.size[v] - wosz);
      curWsz := curWsz - (mem.size[v] + 1);
      FreeFacts();
      WriteHeaders(v, wosz, c);
      WeightSame(size, mem.size, Free());
    }

    /** bf_insert_remnant, and bf_insert_remnant_small for the small ones. */
    method InsertRemnant(v: Addr)
      requires Core() && SweepReady() && v !in Free() && v in mem.size && curWsz == Weight(mem.size, Free())
      requires if mem.size[v] <= BF_NUM_SMALL then S.IsWhite(mem.color, v) else S.IsBlue(mem.color, v)
      requires forall a :: a in mem.size && a != v && S.IsBlue(mem.color, a) ==> a in Free()
      requires sweeping && mem.size[v] <= BF_NUM_SMALL && v - 1 < sweepHp ==> v < Front(mem.size, mem.color, flMerge, sweepHp)
      modifies `curWsz, small, large, large.t
      ensures Valid()
      ensures Free() == if mem.size[v] > BF_NUM_SMALL || (mem.size[v] >= 1 && (!sweeping || v - 1 < sweepHp))
                        then old(Free()) + {v} else old(Free())
    {
      var wosz := mem.size[v];
      WeightAdd(mem.size, Free(), v);
      if wosz <= BF_NUM_SMALL {
        if wosz != 0 && (!sweeping || v - 1 < sweepHp) {
          curWsz := curWsz + (wosz + 1);
          small.PushFront(v, Front(mem.size, mem.color, flMerge, sweepHp));
          assert Free() == old(Free()) + {v};
        }
      } else {
        large.InsertBlock(v);
        curWsz := curWsz + (wosz + 1);
        assert Free() == old(Free()) + {v};
      }
    }

    /** Cutting the result from a block that has been taken out of the free set. */
    method Cut(v: Addr, wosz: nat, c: Color) returns (r: Addr)
      requires Loose(v) && mem.size[v] >= wosz && c != Blue
      modifies mem, `curWsz, small, large, large.t
      ensures Valid() && Cuts(old(Free()), old(mem.size), v, wosz, r)
    {
      if mem.size[v] == wosz {
        r := v;
        curWsz := curWsz - (wosz + 1);
        WriteHeaders(v, wosz, c);
      } else {
        r := Split(v, wosz, c);
        InsertRemnant(v);
      }
    }

    /** The first block of a small list leaves the free set. */
    method TakeSmall(s: nat) returns (block: Addr)
      requires Valid() && 1 <= s <= BF_NUM_SMALL && small.lists[s] != []
      modifies small
      ensures Loose(block) && block in old(Free()) && Free() == old(Free()) - {block} && mem.size[block] == s
      ensures block == old(small.lists)[s][0] && small.lists == old(small.lists)[s := old(small.lists)[s][1..]]
      ensures |small.merge| == |old(small.merge)|
              && forall j :: 0 <= j < |small.merge| && j != s ==> small.merge[j] == old(small.merge)[j]
    {
      FreeFacts();
      ghost var free := Free();
      block := small.PopFront(s, Front(mem.size, mem.color, flMerge, sweepHp));
      WeightRemove(mem.size, free, block);
      assert Free() == free - {block};
    }

    /** A node with a single block leaves the free set. */
    method TakeNode(p: Loc, n: Addr, ghost c: Ctx, ghost sub: Tree)
      requires Valid() && n in large.blocks && large.t.At(c, sub) && p == LocOf(c) && sub.Node? && sub.a == n
      requires n in mem.size && mem.size[n] in large.rings && large.rings[mem.size[n]] == [n]
      modifies large, large.t
      ensures Loose(n) && Free() == old(Free()) - {n}
    {
      FreeFacts();
      ghost var free := Free();
      large.RemoveNodeAt(p, n, c, sub);
      WeightRemove(mem.size, free, n);
      assert Free() == free - {n};
    }

    /** The block after a node in its list leaves the free set. */
    method TakeSecond(n: Addr) returns (b: Addr)
      requires Valid() && n in large.blocks && n in mem.size && mem.size[n] in large.rings
      requires |large.rings[mem.size[n]]| > 1 && large.rings[mem.size[n]][0] == n
      modifies large
      ensures Loose(b) && b in old(large.blocks) && b != n && mem.size[b] == mem.size[n]
      ensures Free() == old(Free()) - {b} && large.blocks == old(large.blocks) - {b}
    {
      FreeFacts();
      ghost var free := Free();
      G.HeadFacts(large.L(), mem.size, large.t.Order(), n);
      b := large.next[n];
      large.Unlink(b);
      WeightRemove(mem.size, free, b);
      assert Free() == free - {b};
    }

    /** A node of the tree becomes smaller without losing its place. */
    method ShrinkNode(n: Addr, w: nat)
      requires Core() && n in large.blocks && n in mem.size && mem.size[n] in large.rings
               && large.rings[mem.size[n]] == [n]
      requires BF_NUM_SMALL < w <= mem.size[n] && G.RoomAbove(large.blocks, mem.size, n, w - 1)
      modifies mem`size, large`rings
      ensures Core() && mem.size == old(mem.size)[n := w]
    {
      ghost var size, color := mem.size, mem.color;
      FreeFacts();
      large.Shrink(n, w);
      SmallFrame(small.L(), size, color, mem.size, color);
      assert forall a, b :: a in size && b in size && a < b ==> Apart(size, a, b);
    }

    /** bf_split on a block that stays in the tree at the same place. */
    method SplitInPlace(n: Addr, wosz: nat, c: Color) returns (r: Addr)
      requires Valid() && n in large.blocks && n in mem.size && mem.size[n] in large.rings
               && large.rings[mem.size[n]] == [n]
      requires mem.size[n] > BF_NUM_SMALL + wosz + 1 && c != Blue
      requires G.RoomAbove(large.blocks, mem.size, n, mem.size[n] - wosz - 2)
      modifies mem, `curWsz, large`rings
      ensures Valid() && Cuts(old(Free()), old(mem.size), n, wosz, r) && large.blocks == old(large.blocks)
    {
      ghost var size, color := mem.size, mem.color;
      r := n + (mem.size[n] - wosz);
      FreeFacts();
      SplitHeap(size, color, n, wosz, SplitColor(size, color, n, wosz, c));
      SplitWeight(size, Free(), n, wosz);
      ShrinkNode(n, mem.size[n] - wosz - 1);
      curWsz := curWsz - (wosz + 1);
      assert SplitColor(size, color, n, wosz, c) == mem.color[r := c];
      SetHeaders(mem.size[r := wosz], mem.color[r := c]);
      MoveFront(size, color, n, wosz, c);
      assert Free() + {n} == Free();
    }

    /** The front of the sweeper moves on when headers are split. */
    lemma MoveFront(size: Sizes, color: Colors, n: Addr, wosz: nat, c: Color)
      requires HeapOk(size, color) && Sweepable(size, color, n) && size[n] > wosz && c != Blue
      requires mem.size == SplitSize(size, n, wosz) && mem.color == SplitColor(size, color, n, wosz, c)
      requires sweeping ==> NoSpan(size, sweepHp) && S.AllSwept(small.L(), mem.color, Front(size, color, flMerge, sweepHp))
      ensures SweepReady()
    {
      if sweeping {
        FrontMoves(size, color, flMerge, sweepHp, n, wosz, c);
        S.LaterFront(small.L(), mem.color, Front(size, color, flMerge, sweepHp),
            Front(mem.size, mem.color, flMerge, sweepHp));
      }
    }

    /** bf_large_least = n */
    method SetLeast(n: Addr)
      requires Valid() && G.IsLeast(large.blocks, mem.size, n)
      modifies large`least
      ensures Valid()
    {
      large.least := n;
    }

    /** bf_alloc_from_large at the node found by bf_search_best. */
    method AllocFromLarge(wosz: nat, p: Loc, bound: nat, setLeast: bool, c: Color, ghost d: Ctx, ghost sub: Tree)
      returns (r: Addr, ghost v: Addr)
      requires Valid() && c != Blue && large.t.At(d, sub) && p == LocOf(d) && sub.Node? && sub.a in large.blocks
      requires G.BestOf(large.blocks, mem.size, wosz, sub.a) && G.RoomAbove(large.blocks, mem.size, sub.a, bound)
      requires bound == wosz == mem.size[sub.a] || bound >= BF_NUM_SMALL
      requires setLeast ==> bound == BF_NUM_SMALL && wosz <= BF_NUM_SMALL
      modifies this`curWsz, mem, small, large, large.t
      ensures Valid() && v in old(large.blocks) && v in old(mem.size) && old(mem.size)[v] == old(mem.size)[sub.a]
      ensures Cuts(old(Free()), old(mem.size), v, wosz, r)
    {
      large.t.DerefAt(d, sub);
      InPlug(d, sub);
      var n := large.t.Deref(p);
      var size := mem.size[n];
      FreeFacts();
      assert G.NodeOk(large.L(), mem.size, n);
      G.OneOfSize(large.L(), mem.size, large.t.Order(), size);
      G.BlockFacts(large.L(), mem.size, large.t.Order(), n);
      if large.next[n] == n {
        assert large.rings[size] == [n];
        v := n;
        if size > bound + (wosz + 1) {
          if setLeast {
            SetLeast(n);
          }
          r := SplitInPlace(n, wosz, c);
        } else {
          TakeNode(p, n, d, sub);
          r := Cut(n, wosz, c);
        }
      } else {
        r, v := AllocFromSecond(wosz, n, setLeast, c);
      }
    }

    /** The case of a node with several blocks: the second one is used. */
    method AllocFromSecond(wosz: nat, n: Addr, setLeast: bool, c: Color) returns (r: Addr, ghost v: Addr)
      requires Valid() && c != Blue && n in large.blocks && G.BestOf(large.blocks, mem.size, wosz, n)
      requires mem.size[n] in large.rings && |large.rings[mem.size[n]]| > 1 && large.rings[mem.size[n]][0] == n
      requires setLeast ==> wosz <= BF_NUM_SMALL
      modifies this`curWsz, mem, small, large, large.t
      ensures Valid() && v in old(large.blocks) && v in old(mem.size) && n in old(mem.size)
              && old(mem.size)[v] == old(mem.size)[n]
      ensures Cuts(old(Free()), old(mem.size), v, wosz, r)
    {
      FreeFacts();
      var b;
      r, b := CutSecond(wosz, n, c);
      v := b;
      if setLeast && mem.size[b] > BF_NUM_SMALL {
        SetLeast(b);
      }
    }

    method CutSecond(wosz: nat, n: Addr, c: Color) returns (r: Addr, b: Addr)
      requires Valid() && c != Blue && n in large.blocks && n in mem.size && mem.size[n] >= wosz
      requires mem.size[n] in large.rings && |large.rings[mem.size[n]]| > 1 && large.rings[mem.size[n]][0] == n
      modifies this`curWsz, mem, small, large, large.t
      ensures Valid() && b in old(large.blocks) && b in old(mem.size) && n in old(mem.size)
              && old(mem.size)[b] == old(mem.size)[n]
      ensures Cuts(old(Free()), old(mem.size), b, wosz, r) && b in mem.size
      ensures old(mem.size)[b] > wosz && mem.size[b] > BF_NUM_SMALL ==>
                b in large.blocks
                && forall x :: x in large.blocks ==> x in mem.size && (x == b || (x in old(large.blocks) && x in old(mem.size) && mem.size[x] == old(mem.size)[x]))
    {
      FreeFacts();
      b := TakeSecond(n);
      ghost var sm, lg, size, color := small.blocks, large.blocks, mem.size, mem.color;
      r := Cut(b, wosz, c);
      if size[b] > wosz && mem.size[b] > BF_NUM_SMALL {
        LargeAfterCut(sm, lg, size, color, b, wosz, r);
      }
    }

    /** After a cut the large blocks are the same, except for the one that was cut. */
    lemma LargeAfterCut(sm: set<Addr>, lg: set<Addr>, size: Sizes, color: Colors, v: Addr, wosz: nat, r: Addr)
      requires Core() && HeapOk(size, color) && v in size && v in mem.size && v !in sm
      requires forall a :: a in sm ==> a in size && size[a] <= BF_NUM_SMALL
      requires forall a :: a in lg ==> a in size
      requires Cuts(sm + lg, size, v, wosz, r) && size[v] > wosz && mem.size[v] > BF_NUM_SMALL
      ensures v in large.blocks
      ensures forall x :: x in large.blocks ==> x in mem.size && (x == v || (x in lg && mem.size[x] == size[x]))
    {
      FreeFacts();
      SplitHeap(size, color, v, wosz, SplitColor(size, color, v, wosz, Black));
      assert v in Free();
      forall x | x in large.blocks ensures x in mem.size && (x == v || (x in lg && mem.size[x] == size[x])) {
        assert x in Free();
      }
    }

    /** bf_allocate_from_tree */
    method AllocateFromTree(wosz: nat, setLeast: bool, c: Color) returns (r: Addr, ghost v: Addr)
      requires Valid() && c != Blue && (setLeast ==> wosz <= BF_NUM_SMALL)
      modifies this`curWsz, mem, small, large, large.t
      ensures Valid()
      ensures r == NULL ==> mem.size == old(mem.size) && Free() == old(Free()) && NoneFits(old(large.blocks), old(mem.size), wosz)
      ensures r != NULL ==> v in old(large.blocks) && G.BestOf(old(large.blocks), old(mem.size), wosz, v) && Cuts(old(Free()), old(mem.size), v, wosz, r)
    {
      var found, p, bound, d, sub := large.FindBest(wosz);
      if !found {
        r, v := NULL, NULL;
        return;
      }
      FreeFacts();
      r, v := AllocFromLarge(wosz, p, bound, setLeast, c, d, sub);
    }

    /** The paths of bf_allocate for small sizes: the list of that size, the next list that is not
        empty, the least large block, and the tree. */
    method AllocateSmall(wosz: nat, c: Color) returns (r: Addr, ghost v: Addr)
      requires Valid() && 1 <= wosz <= BF_NUM_SMALL && c != Blue
      modifies this`curWsz, mem, small, large, large.t
      ensures Valid() && Outcome(old(Free()), old(mem.size), wosz, r, v)
    {
      FreeFacts();
      S.ListFacts(small.L(), mem.size, mem.color, wosz);
      if small.lists[wosz] != [] {
        var block := TakeSmall(wosz);
        v := block;
        r := Cut(block, wosz, c);
        return;
      }
      var s := small.NextSize(wosz);
      if s != 0 {
        r, v := AllocateFromList(s, wosz, c);
      } else {
        r, v := AllocateFromLeast(wosz, c);
      }
    }

    method AllocateFromList(s: nat, wosz: nat, c: Color) returns (r: Addr, ghost v: Addr)
      requires Valid() && 1 <= wosz < s <= BF_NUM_SMALL && c != Blue && small.lists[s] != []
      requires forall b :: b in small.blocks && b in mem.size ==> mem.size[b] < wosz || mem.size[b] >= s
      modifies this`curWsz, mem, small, large, large.t
      ensures Valid() && Outcome(old(Free()), old(mem.size), wosz, r, v)
    {
      FreeFacts();
      var block := TakeSmall(s);
      v := block;
      r := Cut(block, wosz, c);
    }

    /** bf_large_least, if the rest is certain to stay the least large block; otherwise the tree. */
    method AllocateFromLeast(wosz: nat, c: Color) returns (r: Addr, ghost v: Addr)
      requires Valid() && 1 <= wosz <= BF_NUM_SMALL && c != Blue
      requires forall b :: b in small.blocks && b in mem.size ==> mem.size[b] < wosz
      modifies this`curWsz, mem, small, large, large.t
      ensures Valid() && Outcome(old(Free()), old(mem.size), wosz, r, v)
    {
      FreeFacts();
      if large.least != NULL {
        var n := large.least;
        var leastWosz := mem.size[n];
        if leastWosz > BF_NUM_SMALL + (wosz + 1) {
          LeastIsLone(n);
          WidenBest(small.blocks, large.blocks, mem.size, wosz, n);
          r := SplitInPlace(n, wosz, c);
          v := n;
          return;
        }
      }
      r, v := AllocateFromTree(wosz, true, c);
      WidenBest(old(small.blocks), old(large.blocks), old(mem.size), wosz, v);
    }

    /** The block at the least pointer is the lone block of the leftmost node of the tree. */
    lemma LeastIsLone(n: Addr)
      requires Core() && n == large.least != NULL
      ensures n in large.blocks && n in mem.size && mem.size[n] in large.rings && large.rings[mem.size[n]] == [n]
      ensures large.t.Order() != [] && large.t.Order()[0] == n
    {
      var z, order := mem.size[n], large.t.Order();
      assert G.BlockOk(large.L(), mem.size, n);
      G.OneOfSize(large.L(), mem.size, order, z);
      G.NodesAreBlocks(large.L(), mem.size, order);
      var ring := large.rings[z];
      assert forall k :: 0 <= k < |ring| ==> ring[k] in ring;
      FirstTwo(ring);
      SortedFirst(mem.size, order);
      assert order[0] in order;
    }

    /** What an allocation of `wosz` words yields: nothing, if no block of the free set is large
        enough, or the upper end of a block of the least size that is. */
    ghost predicate Outcome(free: set<Addr>, size: Sizes, wosz: nat, r: Addr, v: Addr)
      reads this, mem, small, large
    {
      if r == NULL then mem.size == size && Free() == free && NoneFits(free, size, wosz)
      else v in free && G.BestOf(free, size, wosz, v) && Cuts(free, size, v, wosz, r)
    }

    /** bf_allocate: exact best fit, on every path. */
    method Allocate(wosz: nat, c: Color) returns (r: Addr, ghost v: Addr)
      requires Valid() && wosz >= 1 && c != Blue
      modifies this`curWsz, mem, small, large, large.t
      ensures Valid() && Outcome(old(Free()), old(mem.size), wosz, r, v)
      ensures r == NULL <==> NoneFits(old(Free()), old(mem.size), wosz)
    {
      FreeFacts();
      if wosz <= BF_NUM_SMALL {
        r, v := AllocateSmall(wosz, c);
      } else {
        r, v := AllocateFromTree(wosz, false, c);
        WidenBest(old(small.blocks), old(large.blocks), old(mem.size), wosz, v);
      }
    }

    // -------------------------------------------------------------- sweeping

    /** List `i` holds only blue blocks and the sweeper is at its beginning. */
    ghost predicate Stripped(i: nat)
      reads small, mem`color
    {
      && i < |small.lists| && i < |small.merge| && small.merge[i] == 0
      && forall k :: 0 <= k < |small.lists[i]| ==> S.IsBlue(mem.color, small.lists[i][k])
    }

    /** The first block of a list, a white remnant, leaves the free set. */
    method DropRemnant(i: nat)
      requires Valid() && !sweeping && 1 <= i <= BF_NUM_SMALL && small.lists[i] != []
               && S.IsWhite(mem.color, small.lists[i][0])
      modifies `curWsz, small
      ensures Valid() && old(small.lists)[i][0] in old(Free()) && Free() == old(Free()) - {old(small.lists)[i][0]}
      ensures forall j: nat :: j != i && old(Stripped(j)) ==> Stripped(j)
      ensures |small.lists| == |old(small.lists)| && |small.lists[i]| < |old(small.lists)[i]|
    {
      var p := TakeSmall(i);
      curWsz := curWsz - (mem.size[p] + 1);
    }

    /** bf_init_merge for one list: the white remnants at its front leave the free set. */
    method StripList(i: nat)
      requires Valid() && !sweeping && 1 <= i <= BF_NUM_SMALL
      modifies `curWsz, small
      ensures Valid() && Stripped(i) && Free() <= old(Free())
      ensures forall j: nat :: j != i && old(Stripped(j)) ==> Stripped(j)
      ensures forall b :: b in old(Free()) && b !in Free() ==> S.IsWhite(mem.color, b)
    {
      S.ListFacts(small.L(), mem.size, mem.color, i);
      while small.lists[i] != [] && mem.color[small.lists[i][0]] == White
        invariant Valid() && S.ListOk(small.L(), mem.size, mem.color, i) && Free() <= old(Free())
        invariant forall j: nat :: j != i && old(Stripped(j)) ==> Stripped(j)
        invariant forall b :: b in old(Free()) && b !in Free() ==> S.IsWhite(mem.color, b)
        decreases |small.lists[i]|
      {
        DropRemnant(i);
        S.ListFacts(small.L(), mem.size, mem.color, i);
      }
      small.ResetMerge(i);
    }

    /** bf_init_merge, and the start of the sweep phase at the first block of the heap: every free
        block that the sweeper will meet is blue. */
    method InitMerge(heapStart: Addr)
      requires Valid() && !sweeping && NoSpan(mem.size, heapStart)
      modifies `curWsz, `flMerge, `sweeping, `sweepHp, small
      ensures Valid() && sweeping && sweepHp == heapStart && Free() <= old(Free())
      ensures forall b :: b in Free() ==> S.IsBlue(mem.color, b)
      ensures forall b :: b in old(Free()) && b !in Free() ==> S.IsWhite(mem.color, b)
    {
      flMerge := NULL;
      var i := 1;
      while i <= BF_NUM_SMALL
        invariant 1 <= i <= BF_NUM_SMALL + 1 && Valid() && !sweeping && Free() <= old(Free())
        invariant forall j: nat :: 1 <= j < i ==> Stripped(j)
        invariant forall b :: b in old(Free()) && b !in Free() ==> S.IsWhite(mem.color, b)
      {
        StripList(i);
        i := i + 1;
      }
      ReadyToSweep(heapStart);
      sweepHp := heapStart;
      sweeping := true;
    }

    lemma ReadyToSweep(heapStart: Addr)
      requires Core() && (forall j: nat :: 1 <= j <= BF_NUM_SMALL ==> Stripped(j))
      ensures forall b :: b in Free() ==> S.IsBlue(mem.color, b)
      ensures forall front :: S.AllSwept(small.L(), mem.color, front)
    {
      forall b | b in small.blocks ensures S.IsBlue(mem.color, b) {
        assert S.BlockOk(small.L(), mem.size, b) && Stripped(mem.size[b]);
      }
      forall front, j: nat | 1 <= j <= BF_NUM_SMALL ensures S.SweptList(small.L(), mem.color, j, front) {
        assert Stripped(j);
      }
    }

    /** bf_remove, for a block that the sweeper has not passed: everything from `start` on that is
        before `v` has left the free set. */
    method RemoveFree(v: Addr, ghost start: Addr)
      requires Core() && S.AllSwept(small.L(), mem.color, start) && start <= v
      requires v in Free() && S.IsBlue(mem.color, v) && forall b :: b in Free() ==> b < start || b >= v
      modifies small, large, large.t
      ensures Core() && S.AllSwept(small.L(), mem.color, start)
      ensures Free() == old(Free()) - {v} && old(v in mem.size)
      ensures Weight(mem.size, old(Free())) == Weight(mem.size, Free()) + mem.size[v] + 1
    {
      FreeFacts();
      WeightRemove(mem.size, Free(), v);
      if mem.size[v] <= BF_NUM_SMALL {
        small.Remove(v, start);
        FrontBack(small.L(), mem.size, mem.color, start, v);
      } else {
        large.RemoveBlock(v);
      }
      assert Free() == old(Free()) - {v};
    }

    /** The loop of bf_merge_block at block `cur`: the run so far, from `start` up to `cur`, has left
        the free set and is counted, without `cur` if that one is white. */
    ghost predicate Merging(start: Addr, cur: Addr, white: bool)
      reads this, mem, small, large, large.t
    {
      && Core() && S.AllSwept(small.L(), mem.color, start) && 0 < start <= cur && cur in mem.size
      && EndsBelow(mem.size, start)
      && (forall b :: b in Free() ==> b < start || b > cur)
      && (forall a :: a in mem.size && S.IsBlue(mem.color, a) ==> a in Free() || start <= a <= cur)
      && curWsz == Weight(mem.size, Free()) + (cur - start) + (if white then 0 else mem.size[cur] + 1)
    }

    /** The first part of bf_merge_block: a free block that ends at `bp` is merged as well. */
    method StartRun(bp: Addr) returns (start: Addr)
      requires Valid() && sweeping && bp == sweepHp + 1 && bp in mem.size && S.IsWhite(mem.color, bp) && bp !in Free()
      modifies small, large, large.t
      ensures Merging(start, bp, true) && Free() == old(Free()) - {start}
      ensures start == if EndsAt(mem.size, mem.color, flMerge, sweepHp) then flMerge else bp
    {
      FreeFacts();
      BlocksAround(bp);
      if flMerge in mem.size && flMerge + mem.size[flMerge] + 1 == bp && mem.color[flMerge] == Blue {
        start := flMerge;
        BlocksAround(flMerge);
        RemoveFree(start, start);
      } else {
        start := bp;
        assert Free() - {start} == Free();
      }
    }

    /** The blocks before block `v` end before it, the others start after it. */
    lemma BlocksAround(v: Addr)
      requires Core() && v in mem.size
      ensures EndsBelow(mem.size, v) && EndsBelow(mem.size, v + mem.size[v] + 1)
      ensures forall a :: a in mem.size ==> a <= v || a > v + mem.size[v]
      ensures forall b :: b in Free() ==> b in mem.size
    {
      FreeFacts();
      forall a | a in mem.size && a != v ensures if a < v then a + mem.size[a] < v else v + mem.size[v] < a {
        assert a < v ==> Apart(mem.size, a, v);
        assert a > v ==> Apart(mem.size, v, a);
      }
    }

    /** Every free block that the sweeper has not passed is blue. */
    lemma BlueBeyond(front: Addr)
      requires Core() && S.AllSwept(small.L(), mem.color, front)
      ensures forall b :: b in Free() && b >= front ==> S.IsBlue(mem.color, b)
    {
      forall b | b in small.blocks && b >= front ensures S.IsBlue(mem.color, b) {
        assert S.BlockOk(small.L(), mem.size, b);
        var i := mem.size[b];
        assert S.SweptList(small.L(), mem.color, i, front);
        var k :| 0 <= k < |small.lists[i]| && small.lists[i][k] == b;
      }
    }

    /** The loop of bf_merge_block: up to the next block in use, or the end of the chunk. */
    method FindRun(bp: Addr, limit: Addr, start: Addr) returns (end: Addr)
      requires Merging(start, bp, true) && bp <= limit && Tiled(mem.size, bp, limit)
               && Sweepable(mem.size, mem.color, bp)
      modifies this`curWsz, small, large, large.t
      ensures RunFound(start, end) && bp < end <= limit + 1
      ensures end == limit + 1 || (end in mem.size && !Sweepable(mem.size, mem.color, end))
      ensures forall b :: b in Free() <==> b in old(Free()) && (b < start || b >= end)
      ensures forall a :: a in mem.size && bp <= a < end ==> Sweepable(mem.size, mem.color, a)
    {
      var cur, white, more := bp, true, true;
      end := bp + mem.size[bp] + 1;
      assert Follows(mem.size, bp, limit);
      while more
        invariant bp < end <= limit + 1
        invariant if more then Merging(start, cur, white) && bp <= cur <= limit else
                    RunFound(start, end) && (end == limit + 1 || (end in mem.size && !Sweepable(mem.size, mem.color, end)))
        invariant forall b :: b in Free() <==> b in old(Free()) && (b < start || if more then b > cur else b >= end)
        invariant forall a :: a in mem.size && bp <= a && (if more then a <= cur else a < end) ==> Sweepable(mem.size, mem.color, a)
        decreases more, limit - cur
      {
        cur, end, white, more := NextInRun(cur, limit, start, white);
      }
    }

    /** The run from `start` to `end` has left the free set and is counted. */
    ghost predicate RunFound(start: Addr, end: Addr)
      reads this, mem, small, large, large.t
    {
      && Core() && S.AllSwept(small.L(), mem.color, start) && 0 < start < end
      && EndsBelow(mem.size, start) && EndsBelow(mem.size, end)
      && (forall b :: b in Free() ==> b < start || b >= end)
      && (forall a :: a in mem.size && S.IsBlue(mem.color, a) ==> a in Free() || start <= a < end)
      && curWsz == Weight(mem.size, Free()) + (end - start)
    }

    method NextInRun(cur0: Addr, limit: Addr, start: Addr, white0: bool) returns (cur: Addr, end: Addr, white: bool,
        more: bool)
      requires Merging(start, cur0, white0) && cur0 <= limit && Tiled(mem.size, cur0, limit)
      modifies this`curWsz, small, large, large.t
      ensures cur0 < end <= limit + 1 && cur0 <= cur
      ensures if more then Merging(start, cur, white) && cur == end <= limit else
                RunFound(start, end) && (end == limit + 1 || (end in mem.size && !Sweepable(mem.size, mem.color, end)))
      ensures forall b :: b in Free() <==> b in old(Free()) && (b < start || if more then b > cur else b >= end)
      ensures more ==> Sweepable(mem.size, mem.color, cur)
      ensures forall a :: a in mem.size ==> a <= cur0 || a >= end
    {
      cur, white, more := cur0, white0, false;
      BlocksAround(cur);
      BlueBeyond(start);
      assert Follows(mem.size, cur, limit);
      if white {
        curWsz := curWsz + (mem.size[cur] + 1);
      }
      end := cur + mem.size[cur] + 1;
      if end - 1 >= limit { return; }
      if mem.color[end] == White {
        cur, white, more := end, true, true;
      } else if mem.color[end] == Blue {
        RemoveFree(end, start);
        cur, white, more := end, false, true;
      }
    }

    /** The end of bf_merge_block: the words from `s` to `end` have no headers yet; everything before
        `s` is done. */
    ghost predicate Filling(s: Addr, end: Addr)
      reads this, mem, small, large, large.t
    {
      && Core() && S.AllSwept(small.L(), mem.color, s) && 0 < s <= end
      && EndsBelow(mem.size, s) && (forall a :: a in mem.size ==> a < s || a >= end)
      && (forall b :: b in Free() ==> b < s || b >= end)
      && (forall a :: a in mem.size && S.IsBlue(mem.color, a) ==> a in Free())
      && curWsz == Weight(mem.size, Free()) + (end - s)
    }

    method ClearRun(start: Addr, end: Addr)
      requires RunFound(start, end)
      modifies mem
      ensures Filling(start, end) && mem.size == Cleared(old(mem.size), start, end) && mem.color == old(mem.color)
    {
      ghost var size, color := mem.size, mem.color;
      FreeFacts();
      assert forall a, b :: a in size && b in size && a < b ==> Apart(size, a, b);
      SetHeaders(Cleared(mem.size, start, end), mem.color);
      WeightSame(size, mem.size, Free());
    }

    /** bf_insert_sweep */
    method InsertSweep(s: Addr)
      requires Core() && S.AllSwept(small.L(), mem.color, s) && s in mem.size && s !in Free()
      requires S.IsBlue(mem.color, s) && mem.size[s] >= 1
      modifies small, large, large.t
      ensures Core() && S.AllSwept(small.L(), mem.color, s + 1) && Free() == old(Free()) + {s}
    {
      FreeFacts();
      if mem.size[s] <= BF_NUM_SMALL {
        small.InsertSweep(s, s);
      } else {
        large.InsertBlock(s);
        S.LaterFront(small.L(), mem.color, s, s + 1);
      }
      assert Free() == old(Free()) + {s};
    }

    /** A header, and the block enters the free set. */
    method InsertPiece(s: Addr, wosz: nat, end: Addr)
      requires Filling(s, end) && 1 <= wosz && s + wosz < end
      modifies mem, small, large, large.t
      ensures Filling(s + wosz + 1, end) && Free() == old(Free()) + {s}
      ensures mem.size == old(mem.size)[s := wosz] && mem.color == old(mem.color)[s := Blue]
    {
      ghost var size, color, free := mem.size, mem.color, Free();
      FreeFacts();
      PieceFits(size, color, s, wosz, end, Blue);
      SetHeaders(mem.size[s := wosz], mem.color[s := Blue]);
      WeightSame(size, mem.size, free);
      WeightAdd(mem.size, free, s);
      InsertSweep(s);
      S.LaterFront(small.L(), mem.color, s + 1, s + wosz + 1);
    }

    lemma PieceFits(size: Sizes, color: Colors, s: Addr, wosz: nat, end: Addr, c: Color)
      requires HeapOk(size, color) && 0 < s && s + wosz < end && EndsBelow(size, s)
               && forall a :: a in size ==> a < s || a >= end
      ensures HeapOk(size[s := wosz], color[s := c]) && EndsBelow(size[s := wosz], s + wosz + 1)
    {
      var size' := size[s := wosz];
      forall a, b | a in size' && b in size' && a < b ensures Apart(size', a, b) {
        assert a in size && b in size ==> Apart(size, a, b);
      }
    }

    /** The end of bf_merge_block: the run becomes free blocks of at most the greatest size. */
    method FillRun(start: Addr, end: Addr)
      requires Filling(start, end) && start < end
      modifies this`curWsz, mem, small, large, large.t
      ensures Filling(end, end) && Refilled(H(), start, end)
      ensures SameOutside(old(H()), H(), start, end)
    {
      var s, wosz := FillPieces(start, end);
      EndPieces(H(), start, s, wosz);
      StaysSame(old(H()), H(), start, end, s, wosz, if wosz > 0 then Blue else White,
          if wosz > 0 then Free() + {s} else Free());
      LastPiece(s, wosz, end);
    }

    method FillPieces(start: Addr, end: Addr) returns (s: Addr, wosz: nat)
      requires Filling(start, end) && start < end
      modifies mem, small, large, large.t
      ensures start <= s < end && wosz == end - s - 1 <= MAX_WOSIZE && Filling(s, end)
      ensures FullPieces(H(), start, s)
      ensures SameOutside(old(H()), H(), start, end)
    {
      s, wosz := start, end - start - 1;
      while wosz > MAX_WOSIZE
        invariant start <= s < end && wosz == end - s - 1 && Filling(s, end)
        invariant FullPieces(H(), start, s)
        invariant SameOutside(old(H()), H(), start, end)
        decreases wosz
      {
        AddFullPiece(H(), start, s);
        StaysSame(old(H()), H(), start, end, s, MAX_WOSIZE, Blue, Free() + {s});
        InsertPiece(s, MAX_WOSIZE, end);
        s := s + (MAX_WOSIZE + 1);
        wosz := wosz - (MAX_WOSIZE + 1);
      }
    }

    method LastPiece(s: Addr, wosz: nat, end: Addr)
      requires Filling(s, end) && wosz == end - s - 1 && wosz <= MAX_WOSIZE
      modifies this`curWsz, mem, small, large, large.t
      ensures Filling(end, end)
      ensures H() == Filled(old(H()), s, wosz)
    {
      if wosz > 0 {
        InsertPiece(s, wosz, end);
      } else {
        ghost var size := mem.size;
        FreeFacts();
        PieceFits(mem.size, mem.color, s, 0, end, White);
        SetHeaders(mem.size[s := 0], mem.color[s := White]);
        WeightSame(size, mem.size, Free());
        curWsz := curWsz - 1;
        S.LaterFront(small.L(), mem.color, s, end);
      }
    }

    /** Where a run of free blocks starts that the sweeper is about to merge. */
    ghost function RunStart(): Addr
      reads `flMerge, `sweepHp, mem
    {
      if EndsAt(mem.size, mem.color, flMerge, sweepHp) then flMerge else sweepHp + 1
    }

    /** bf_merge_block, and the new position of the sweeper: the white and blue blocks from `bp` on, with
        the free block just before them, up to the next block in use, become one free block (or several,
        if one would be too large). */
    method MergeBlock(bp: Addr, limit: Addr)
      requires Valid() && sweeping && bp == sweepHp + 1 && bp <= limit && bp in mem.size && S.IsWhite(mem.color, bp)
      requires Tiled(mem.size, bp, limit)
      modifies this`curWsz, this`sweepHp, mem, small, large, large.t
      ensures Valid() && bp <= sweepHp <= limit
      ensures sweepHp == limit || (sweepHp + 1 in mem.size && !Sweepable(mem.size, mem.color, sweepHp + 1))
      ensures Refilled(H(), old(RunStart()), sweepHp + 1)
      ensures SameOutside(old(H()), H(), old(RunStart()), sweepHp + 1)
      ensures forall a :: a in old(mem.size) && old(RunStart()) <= a <= sweepHp ==> Sweepable(old(mem.size), old(mem.color), a)
    {
      ghost var h := H();
      var start, end := TakeRun(bp, limit);
      ghost var h2 := H();
      FillRun(start, end);
      SameTwice(h, h2, H(), start, end);
      assert SameAt(h2, H(), end);
      MoveSweeper(end);
    }

    /** The sweeper is at a block in use, or at the end of the chunk, with everything before it done. */
    method MoveSweeper(end: Addr)
      requires Filling(end, end) && !Sweepable(mem.size, mem.color, end)
      modifies `sweepHp
      ensures Valid() && sweepHp == end - 1
    {
      sweepHp := end - 1;
    }

    /** Between the start of the run and the sweeper there is at most the free block to be merged. */
    lemma RunStartsBelow()
      requires Core() && sweepHp + 1 in mem.size
      ensures RunStart() <= sweepHp + 1
      ensures forall a :: a in mem.size && RunStart() <= a <= sweepHp ==> S.IsBlue(mem.color, a) && a == flMerge
    {
      BlocksAround(sweepHp + 1);
      if EndsAt(mem.size, mem.color, flMerge, sweepHp) { BlocksAround(flMerge); }
    }

    /** The run from `start` to `end` leaves the free set, with its headers. */
    method TakeRun(bp: Addr, limit: Addr) returns (start: Addr, end: Addr)
      requires Valid() && sweeping && bp == sweepHp + 1 && bp <= limit && bp in mem.size && S.IsWhite(mem.color, bp)
      requires Tiled(mem.size, bp, limit)
      modifies this`curWsz, mem, small, large, large.t
      ensures Filling(start, end) && start == old(RunStart()) && start <= bp < end <= limit + 1
      ensures !Sweepable(mem.size, mem.color, end) && (end == limit + 1 || end in mem.size)
      ensures SameOutside(old(H()), H(), start, end)
      ensures forall a :: a in old(mem.size) && start <= a < end ==> Sweepable(old(mem.size), old(mem.color), a)
    {
      RunStartsBelow();
      BlueBeyond(Front(mem.size, mem.color, flMerge, sweepHp));
      ghost var h := H();
      start := StartRun(bp);
      ghost var h1 := H();
      end := FindRun(bp, limit, start);
      ClearRun(start, end);
      RunLeft(h, h1, H(), start, bp, end);
    }

    /** Nothing outside the run has changed when the run has left the free set. */
    lemma RunLeft(h: Heap, h1: Heap, h2: Heap, start: Addr, bp: Addr, end: Addr)
      requires start <= bp < end && h1 == h.(free := h.free - {start})
      requires h2.size == Cleared(h.size, start, end) && h2.color == h.color
      requires forall b :: b in h2.free <==> b in h1.free && (b < start || b >= end)
      ensures SameOutside(h, h2, start, end)
    {
      forall a: Addr | a < start || a >= end ensures SameAt(h, h2, a) {
      }
    }

    lemma SameTwice(h: Heap, h2: Heap, h3: Heap, start: Addr, end: Addr)
      requires SameOutside(h, h2, start, end) && SameOutside(h2, h3, start, end)
      ensures SameOutside(h, h3, start, end)
    {
      forall a: Addr | a < start || a >= end ensures SameAt(h, h3, a) {
        assert SameAt(h, h2, a) && SameAt(h2, h3, a);
      }
    }

    /** sweep_slice at a free block: the sweeper passes it and remembers it. */
    method PassFree(a: Addr)
      requires Valid() && sweeping && a == sweepHp + 1 && a in mem.size && S.IsBlue(mem.color, a)
      modifies `sweepHp, `flMerge
      ensures Valid() && sweepHp == a + mem.size[a] && flMerge == a
    {
      BlocksAround(a);
      ghost var front := Front(mem.size, mem.color, flMerge, sweepHp);
      flMerge, sweepHp := a, a + mem.size[a];
      S.LaterFront(small.L(), mem.color, front, Front(mem.size, mem.color, flMerge, sweepHp));
    }

    /** sweep_slice at a block in use: it becomes white for the next cycle. */
    method PassLive(a: Addr)
      requires Valid() && sweeping && a == sweepHp + 1 && a in mem.size && !Sweepable(mem.size, mem.color, a)
      modifies `sweepHp, mem
      ensures Valid() && a in old(mem.size) && sweepHp == a + old(mem.size)[a]
      ensures H() == old(H()).(color := old(mem.color)[a := White])
    {
      FreeFacts();
      BlocksAround(a);
      ghost var front := Front(mem.size, mem.color, flMerge, sweepHp);
      SetHeaders(mem.size, mem.color[a := White]);
      BlocksAround(a);
      sweepHp := a + mem.size[a];
      S.LaterFront(small.L(), mem.color, front, Front(mem.size, mem.color, flMerge, sweepHp));
    }

    /** The blocks in use of heap `h` up to the sweeper are white, those beyond are unchanged, and none is
        in the free set. */
    ghost predicate KeepsLive(h: Heap, from: Addr)
      reads this, mem, small, large
    {
      forall a {:trigger LiveAt(h, a)} :: a in h.size && a > from && !Sweepable(h.size, h.color, a) ==> LiveAt(h, a)
    }

    ghost predicate LiveAt(h: Heap, a: Addr)
      reads this, mem, small, large
    {
      && a in h.size && a in mem.size && mem.size[a] == h.size[a] && a !in Free()
      && a in mem.color && a in h.color && (if a <= sweepHp then mem.color[a] == White else mem.color[a] == h.color[a])
    }

    /** Sweeping to the end of a chunk.  Every block in use stays, with its size, and becomes white; every word
        of every other block is free afterwards or a fragment of one word; and free blocks follow each other
        only behind a block of the greatest size, or where they did and no dead block came before them. */
    method SweepChunk(limit: Addr)
      requires Valid() && sweeping && sweepHp <= limit && Tiled(mem.size, sweepHp + 1, limit)
      requires sweepHp == limit || sweepHp + 1 in mem.size
      modifies this`curWsz, this`sweepHp, this`flMerge, mem, small, large, large.t
      ensures Valid() && sweepHp == limit && KeepsLive(old(H()), old(sweepHp))
      ensures AllReturned(old(H()), H(), old(sweepHp), limit) && Ahead(old(H()), H(), limit)
      ensures NeighboursLeft(old(H()), H(), old(sweepHp), limit)
    {
      FreeFacts();
      BlueBeyond(Front(mem.size, mem.color, flMerge, sweepHp));
      SweepStarts(H(), sweepHp, limit, flMerge);
      assert forall a :: a in mem.size && !Sweepable(mem.size, mem.color, a) ==> a !in Free();
      while sweepHp < limit
        invariant Valid() && sweeping && old(sweepHp) <= sweepHp <= limit && Tiled(mem.size, sweepHp + 1, limit)
        invariant sweepHp == limit || sweepHp + 1 in mem.size
        invariant KeepsLive(old(H()), old(sweepHp)) && Sweeping(old(H()), H(), old(sweepHp), sweepHp, limit, flMerge)
        decreases limit - sweepHp
      {
        SweepNext(limit, old(H()), old(sweepHp));
      }
      NeighboursExactly(old(H()), H(), old(sweepHp), limit);
    }

    /** sweep_slice at the end of a chunk: on to the start of the next one, with no block in between. */
    method NextChunk(start: Addr)
      requires Valid() && sweeping && sweepHp <= start && forall a :: a in mem.size ==> a <= sweepHp || a > start
      modifies `sweepHp
      ensures Valid() && sweepHp == start
    {
      NextChunkFront(start);
      S.LaterFront(small.L(), mem.color, Front(mem.size, mem.color, flMerge, sweepHp),
          Front(mem.size, mem.color, flMerge, start));
      sweepHp := start;
    }

    lemma NextChunkFront(start: Addr)
      requires NoSpan(mem.size, sweepHp) && sweepHp <= start && forall a :: a in mem.size ==> a <= sweepHp || a > start
      ensures NoSpan(mem.size, start)
      ensures Front(mem.size, mem.color, flMerge, sweepHp) <= Front(mem.size, mem.color, flMerge, start)
    {
      assert flMerge in mem.size ==> flMerge + mem.size[flMerge] <= sweepHp || flMerge > sweepHp;
    }

    /** sweep_slice at the end of the last chunk: the free set is ready for the next cycle. */
    method EndSweep()
      requires Valid() && sweeping
      modifies `sweeping
      ensures Valid() && !sweeping
    {
      sweeping := false;
    }

    method SweepNext(limit: Addr, ghost h: Heap, ghost from: Addr)
      requires Valid() && sweeping && sweepHp < limit && Tiled(mem.size, sweepHp + 1, limit) && sweepHp + 1 in mem.size
      requires KeepsLive(h, from) && from <= sweepHp && Sweeping(h, H(), from, sweepHp, limit, flMerge)
      modifies this`curWsz, this`sweepHp, this`flMerge, mem, small, large, large.t
      ensures Valid() && sweeping && old(sweepHp) < sweepHp <= limit && Tiled(mem.size, sweepHp + 1, limit)
      ensures sweepHp == limit || sweepHp + 1 in mem.size
      ensures KeepsLive(h, from) && Sweeping(h, H(), from, sweepHp, limit, flMerge)
    {
      var a := sweepHp + 1;
      assert Follows(mem.size, a, limit);
      if mem.color[a] == White {
        MergeNext(a, limit, h, from);
      } else if mem.color[a] == Blue {
        FreeNext(a, limit, h, from);
      } else {
        LiveNext(a, limit, h, from);
      }
    }

    method FreeNext(a: Addr, limit: Addr, ghost h: Heap, ghost from: Addr)
      requires Valid() && sweeping && a == sweepHp + 1 && a <= limit && Tiled(mem.size, a, limit) && a in mem.size
      requires S.IsBlue(mem.color, a) && KeepsLive(h, from) && from <= sweepHp && Sweeping(h, H(), from, sweepHp, limit, flMerge)
      modifies this`sweepHp, this`flMerge
      ensures Valid() && old(sweepHp) < sweepHp <= limit && Tiled(mem.size, sweepHp + 1, limit)
      ensures sweepHp == limit || sweepHp + 1 in mem.size
      ensures KeepsLive(h, from) && Sweeping(h, H(), from, sweepHp, limit, flMerge)
    {
      assert Follows(mem.size, a, limit);
      BlocksAround(a);
      FreePassed(h, H(), from, sweepHp, limit, flMerge, a);
      PassFree(a);
      forall b | b in h.size && b > from && !Sweepable(h.size, h.color, b) ensures LiveAt(h, b) {
        assert old(LiveAt(h, b));
      }
    }

    method LiveNext(a: Addr, limit: Addr, ghost h: Heap, ghost from: Addr)
      requires Valid() && sweeping && a == sweepHp + 1 && a <= limit && Tiled(mem.size, a, limit) && a in mem.size
      requires !Sweepable(mem.size, mem.color, a) && KeepsLive(h, from) && from <= sweepHp
      requires Sweeping(h, H(), from, sweepHp, limit, flMerge)
      modifies this`sweepHp, mem
      ensures Valid() && old(sweepHp) < sweepHp <= limit && Tiled(mem.size, sweepHp + 1, limit)
      ensures sweepHp == limit || sweepHp + 1 in mem.size
      ensures KeepsLive(h, from) && Sweeping(h, H(), from, sweepHp, limit, flMerge)
    {
      assert Follows(mem.size, a, limit);
      BlocksAround(a);
      FreeFacts();
      LivePassed(h, H(), from, sweepHp, limit, flMerge, a);
      PassLive(a);
      forall b | b in h.size && b > from && !Sweepable(h.size, h.color, b) ensures LiveAt(h, b) {
        assert old(LiveAt(h, b));
      }
    }

    method MergeNext(a: Addr, limit: Addr, ghost h: Heap, ghost from: Addr)
      requires Valid() && sweeping && a == sweepHp + 1 && a <= limit && Tiled(mem.size, a, limit) && a in mem.size
      requires S.IsWhite(mem.color, a) && KeepsLive(h, from) && from <= sweepHp && Sweeping(h, H(), from, sweepHp, limit, flMerge)
      modifies this`curWsz, this`sweepHp, mem, small, large, large.t
      ensures Valid() && old(sweepHp) < sweepHp <= limit && Tiled(mem.size, sweepHp + 1, limit)
      ensures sweepHp == limit || sweepHp + 1 in mem.size
      ensures KeepsLive(h, from) && Sweeping(h, H(), from, sweepHp, limit, flMerge)
    {
      ghost var h1 := H();
      RunStartsBelow();
      ghost var start := MergeRun(a, limit, h, from);
      TiledLater(h1, H(), a, limit, start, sweepHp);
      forall b | b in h.size && b > from && !Sweepable(h.size, h.color, b) ensures LiveAt(h, b) {
        assert old(LiveAt(h, b));
        assert b < start || b > sweepHp;
        assert SameAt(h1, H(), b);
      }
    }

    method MergeRun(a: Addr, limit: Addr, ghost h: Heap, ghost from: Addr) returns (ghost start: Addr)
      requires Valid() && sweeping && a == sweepHp + 1 && a <= limit && Tiled(mem.size, a, limit) && a in mem.size
      requires S.IsWhite(mem.color, a) && from <= sweepHp && Sweeping(h, H(), from, sweepHp, limit, flMerge)
      modifies this`curWsz, this`sweepHp, mem, small, large, large.t
      ensures Valid() && a <= sweepHp <= limit && (sweepHp == limit || sweepHp + 1 in mem.size)
      ensures start == old(RunStart()) <= a && SameOutside(old(H()), H(), start, sweepHp + 1) && Sweeping(h, H(), from, sweepHp, limit, flMerge)
      ensures forall b :: b in old(mem.size) && start <= b <= sweepHp ==> Sweepable(old(mem.size), old(mem.color), b)
    {
      ghost var h1, hp := H(), sweepHp;
      start := RunStart();
      RunStartsBelow();
      MergeBlock(a, limit);
      RunSwept(h, h1, H(), from, hp, limit, flMerge, start, sweepHp);
    }

    // -------------------------------------------------------------- heap extension

    /** One block of bf_add_blocks: large blocks enter the tree, small ones their list, unless the sweeper
        has still to come.  The block lies in a new chunk, away from the sweeper. */
    method AddBlock(bp: Addr, wosz: nat)
      requires Valid() && bp !in mem.size && bp != NULL
      requires forall a :: a in mem.size ==> if a < bp then a + mem.size[a] < bp else bp + wosz < a
      requires sweeping ==> bp > sweepHp + 1 || bp + wosz < sweepHp
      modifies this`curWsz, mem, small, large, large.t
      ensures Valid() && mem.size == old(mem.size)[bp := wosz]
      ensures Free() == if wosz > BF_NUM_SMALL || (wosz >= 1 && (!sweeping || bp - 1 < sweepHp)) then old(Free()) + {bp} else old(Free())
    {
      WriteNewHeader(bp, wosz);
      InsertRemnant(bp);
    }

    method WriteNewHeader(bp: Addr, wosz: nat)
      requires Core() && SweepReady() && bp !in mem.size && bp != NULL
      requires forall a :: a in mem.size ==> if a < bp then a + mem.size[a] < bp else bp + wosz < a
      requires sweeping ==> bp > sweepHp + 1 || bp + wosz < sweepHp
      modifies mem
      ensures Core() && SweepReady() && mem.size == old(mem.size)[bp := wosz]
      ensures mem.color == old(mem.color)[bp := if wosz > BF_NUM_SMALL then Blue else White]
      ensures sweeping && bp - 1 < sweepHp ==> bp < Front(mem.size, mem.color, flMerge, sweepHp)
      ensures bp !in Free() && Weight(mem.size, Free()) == old(Weight(mem.size, Free()))
    {
      ghost var size, color := mem.size, mem.color;
      FreeFacts();
      WeightSame(size, size[bp := wosz], Free());
      assert forall a, b :: a in size && b in size && a < b ==> Apart(size, a, b);
      SetHeaders(mem.size[bp := wosz], mem.color[bp := if wosz > BF_NUM_SMALL then Blue else White]);
      assert sweeping ==> Front(mem.size, mem.color, flMerge, sweepHp) == Front(size, color, flMerge, sweepHp);
    }
  }

  lemma SplitWeight(size: Sizes, free: set<Addr>, n: Addr, wosz: nat)
    requires n in free && n in size && size[n] > wosz && SplitAddr(size, n, wosz) !in free
    ensures Weight(SplitSize(size, n, wosz), free) == Weight(size, free) - (wosz + 1)
  {
    var size' := SplitSize(size, n, wosz);
    WeightRemove(size, free, n);
    WeightRemove(size', free, n);
    WeightSame(size, size', free - {n});
  }
}
