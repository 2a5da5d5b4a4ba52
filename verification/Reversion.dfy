// Pass 3 of compaction (compact.c): every thread is unwound, and its slots then
// hold the new address of what they pointed to.

module Reversion {
  import opened Basics
  import opened Threading
  import opened Inversion

  /** There were pointers to the block. */
  predicate IsLive(t: Thread) {
    Slots(t, 0) != [] || t.order != []
  }

  ghost function Live(l: Layout, th: Threads): set<Addr> {
    set v | v in l.blocks && v in th && IsLive(th[v])
  }

  // ---------------------------------------------------------------- one block

  /** Word `a` belongs to the lists of the infix positions `offs`. */
  ghost predicate OnLists(v: Addr, t: Thread, offs: seq<nat>, a: Addr)
    requires v > 0
  {
    exists off: nat :: OnList(v, t, offs, off, a)
  }

  ghost predicate OnList(v: Addr, t: Thread, offs: seq<nat>, off: nat, a: Addr)
    requires v > 0
  {
    off in offs && (a == v - 1 + off || a in Slots(t, off))
  }

  /** The header of an infix position is rebuilt and its list unwound. */
  ghost predicate Rebuilt(mem: Memory, v: Addr, t: Thread, nv: Addr, off: nat)
    requires v > 0
  {
    && v - 1 + off in mem && mem[v - 1 + off] == InfixHd(off)
    && forall a :: a in Slots(t, off) ==> a in mem && mem[a] == Ptr(nv + off)
  }

  /** The block of `b` is to go to `nv`; its header is rebuilt, its own list and those of the infix
      positions `offs` are unwound. */
  ghost predicate Part(before: Memory, mem: Memory, v: Addr, b: Block, t: Thread, nv: Addr, offs: seq<nat>)
    requires v > 0
  {
    && mem.Keys == before.Keys && v - 1 in mem && mem[v - 1] == Hd(b.size, b.tag, false)
    && (forall a :: a in Slots(t, 0) ==> a in mem && mem[a] == Ptr(nv))
    && (forall off {:trigger Rebuilt(mem, v, t, nv, off)} :: off in offs ==> Rebuilt(mem, v, t, nv, off))
    && forall a {:trigger mem[a]} :: a in mem && a != v - 1 && a !in Slots(t, 0) && !OnLists(v, t, offs, a) ==> mem[a] == before[a]
  }

  /** The slots of a list all hold `w`. */
  ghost predicate Unwound(before: Memory, mem: Memory, slots: seq<Addr>, w: Word) {
    mem.Keys == before.Keys && forall a :: a in mem ==> mem[a] == if a in slots then w else before[a]
  }

  ghost predicate Lists(v: Addr, t: Thread)
    requires v > 0
  {
    && Tidy(v, t) && Distinct(t.order)
    && forall off: nat :: Distinct(Slots(t, off))
  }

  lemma PartBegins(before: Memory, mem: Memory, v: Addr, b: Block, t: Thread, nv: Addr)
    requires v > 0 && Lists(v, t) && v - 1 in before && Unwound(before, mem, Slots(t, 0), Ptr(nv))
    requires forall a :: a in Slots(t, 0) ==> a in before
    ensures Part(before, mem[v - 1 := Hd(b.size, b.tag, false)], v, b, t, nv, [])
  {
  }

  lemma PartGoesOn(before: Memory, mem: Memory, mem1: Memory, v: Addr, b: Block, t: Thread, nv: Addr, offs: seq<nat>,
      off: nat)
    requires v > 0 && Lists(v, t) && Part(before, mem, v, b, t, nv, offs) && off in t.order && off !in offs
    requires forall o :: o in offs ==> o in t.order
    requires off >= 2 && InfixAt(v, off) in mem && Unwound(mem, mem1, Slots(t, off), Ptr(nv + off))
    requires forall a :: a in Slots(t, off) ==> a in before
    ensures Part(before, mem1[InfixAt(v, off) := InfixHd(off)], v, b, t, nv, offs + [off])
  {
    var mem', offs' := mem1[InfixAt(v, off) := InfixHd(off)], offs + [off];
    assert forall o :: o in offs' ==> o in t.order;
    forall o | o in offs' ensures Rebuilt(mem', v, t, nv, o) {
      if o != off { OtherListStays(mem, mem', v, t, nv, o, off); }
    }
    OtherWordsStay(before, mem, mem', v, t, offs, off);
  }

  lemma OtherListStays(mem: Memory, mem': Memory, v: Addr, t: Thread, nv: Addr, o: nat, off: nat)
    requires v > 0 && Lists(v, t) && o in t.order && off in t.order && o != off && mem'.Keys == mem.Keys
             && Rebuilt(mem, v, t, nv, o)
    requires forall a :: a in mem && a != InfixAt(v, off) && a !in Slots(t, off) ==> mem'[a] == mem[a]
    ensures Rebuilt(mem', v, t, nv, o)
  {
  }

  lemma OtherWordsStay(before: Memory, mem: Memory, mem': Memory, v: Addr, t: Thread, offs: seq<nat>, off: nat)
    requires v > 0 && mem'.Keys == mem.Keys == before.Keys
    requires forall a :: a in mem && a != v - 1 + off && a !in Slots(t, off) ==> mem'[a] == mem[a]
    requires forall a {:trigger mem[a]} :: a in mem && a != v - 1 && a !in Slots(t, 0) && !OnLists(v, t, offs, a) ==> mem[a] == before[a]
    ensures forall a {:trigger mem'[a]} :: a in mem' && a != v - 1 && a !in Slots(t, 0) && !OnLists(v, t, offs + [off], a) ==> mem'[a] == before[a]
  {
    forall a | a in mem && !OnLists(v, t, offs + [off], a) ensures !OnLists(v, t, offs, a) && a != v - 1 + off && a !in Slots(t, off) {
      assert !OnList(v, t, offs + [off], off, a);
      forall o: nat ensures !OnList(v, t, offs, o, a) { assert !OnList(v, t, offs + [off], o, a); }
    }
  }

  /** The infix lists that are still to be unwound are as they were. */
  lemma PartKeepsRest(before: Memory, mem: Memory, v: Addr, b: Block, t: Thread, nv: Addr, k: nat, hd: Word)
    requires v > 0 && Lists(v, t) && k <= |t.order| && Part(before, mem, v, b, t, nv, t.order[..k])
    requires InfixChains(before, v, t.order[k..], t, hd)
    ensures InfixChains(mem, v, t.order[k..], t, hd)
  {
    var rest := t.order[k..];
    forall off, a | off in rest && (a == InfixAt(v, off) || a in Slots(t, off)) && a in before ensures mem[a] == before[a] {
      assert off in t.order && off !in t.order[..k];
      forall o: nat ensures !OnList(v, t, t.order[..k], o, a) {
        assert o in t.order[..k] ==> o in t.order && o != off;
      }
    }
    InfixChainsFrame(before, mem, v, rest, t, t, hd);
  }

  lemma {:induction false} LaterInfixChains(mem: Memory, v: Addr, order: seq<nat>, t: Thread, hd: Word, k: nat)
    requires v > 0 && InfixChains(mem, v, order, t, hd) && k <= |order|
    ensures InfixChains(mem, v, order[k..], t, hd)
  {
    if k > 0 {
      assert order[k..] == order[1..][k - 1..];
      LaterInfixChains(mem, v, order[1..], t, hd, k - 1);
    } else {
      assert order[0..] == order;
    }
  }

  // ---------------------------------------------------------------- the whole heap

  /** Everything about block `v` is in its final state: its header has no list any more, and the slots
      that pointed into it hold its new address. */
  ghost predicate Settled(mem: Memory, l: Layout, th: Threads, plan: map<Addr, Addr>, v: Addr)
    requires v in l.blocks
  {
    && v > 0 && v in th && v - 1 in mem && mem[v - 1] == Hd(l.blocks[v].size, l.blocks[v].tag, v !in plan)
    && (v in plan <==> IsLive(th[v]))
    && (forall off: nat, p: Addr {:trigger p in Slots(th[v], off)} :: p in Slots(th[v], off) ==> v in plan && p in mem && mem[p] == Ptr(plan[v] + off))
    && forall off :: off in l.blocks[v].infix ==> InfixAt(v, off) >= 0 && InfixAt(v, off) in mem && mem[InfixAt(v, off)] == InfixHd(off)
  }

  /** The threads, once every slot is inverted. */
  ghost predicate ThreadsAt(l: Layout, orig: Memory, th: Threads, done: set<Addr>, v: Addr)
    requires v in l.blocks
  {
    && v > 0 && v in th && RunsThrough(l, orig, th[v], v, done) && ThreadShape(l.blocks[v], orig, th[v], done, v) && Lists(v, th[v])
    && IsHeader(l, v - 1) && Owner(l, orig, v - 1) == v
    && forall off :: off in l.blocks[v].infix ==> off >= 2 && InfixAt(v, off) != v - 1 && IsInfixHeader(l, InfixAt(v, off)) && Owner(l, orig, InfixAt(v, off)) == v
  }

  ghost predicate Thread2(l: Layout, orig: Memory, th: Threads, done: set<Addr>, p: Addr) {
    !IsHeader(l, p) && !IsInfixHeader(l, p) && p in done && Points(l, orig, p) ==>
      var v := l.base[orig[p].a]; v in th && v <= orig[p].a && p in Slots(th[v], orig[p].a - v)
  }

  ghost predicate Inverted(l: Layout, orig: Memory, th: Threads, done: set<Addr>) {
    && GoodLayout(l)
    && (forall v {:trigger ThreadsAt(l, orig, th, done, v)} :: v in l.blocks ==> ThreadsAt(l, orig, th, done, v))
    && forall p {:trigger Thread2(l, orig, th, done, p)} :: p in orig ==> Thread2(l, orig, th, done, p)
  }

  ghost predicate StateOf(mem: Memory, l: Layout, orig: Memory, th: Threads, done: set<Addr>, plan: map<Addr, Addr>,
      k: Addr, v: Addr)
    requires v in l.blocks
  {
    if v <= k then Settled(mem, l, th, plan, v) else BlockInv(mem, l, orig, th, done, v)
  }

  /** A word that no thread runs through. */
  ghost predicate Loose(l: Layout, orig: Memory, done: set<Addr>, p: Addr) {
    p in orig && !IsHeader(l, p) && !IsInfixHeader(l, p) && !(p in done && Points(l, orig, p))
  }

  /** The pass has reached word `k`. */
  ghost predicate Reverting(mem: Memory, l: Layout, orig: Memory, th: Threads, done: set<Addr>, plan: map<Addr, Addr>,
      k: Addr) {
    && Inverted(l, orig, th, done) && mem.Keys == orig.Keys
    && (forall v {:trigger StateOf(mem, l, orig, th, done, plan, k, v)} :: v in l.blocks ==> StateOf(mem, l, orig, th, done, plan, k, v))
    && forall p {:trigger Loose(l, orig, done, p)} :: Loose(l, orig, done, p) ==> p in mem && mem[p] == orig[p]
  }

  lemma InversionEnds(mem: Memory, l: Layout, orig: Memory, th: Threads, done: set<Addr>, plan: map<Addr, Addr>)
    requires Inv(mem, l, orig, th, done)
    ensures Reverting(mem, l, orig, th, done, plan, 0)
  {
    forall v | v in l.blocks ensures ThreadsAt(l, orig, th, done, v) && StateOf(mem, l, orig, th, done, plan, 0, v) {
      CellsOwned(mem, l, orig, th, done, v);
      TidyByKind(l, orig, th[v], v, l.blocks[v].infix, done);
    }
    forall p | p in orig ensures Thread2(l, orig, th, done, p) && (Loose(l, orig, done, p) ==> p in mem && mem[p] == orig[p]) {
      assert SlotInv(mem, l, orig, th, done, p);
    }
  }

  /** `mem'` differs from `mem` only in words that belong to block `v` or to its threads. */
  ghost predicate ChangesOwned(mem: Memory, mem': Memory, l: Layout, orig: Memory, done: set<Addr>, v: Addr) {
    mem'.Keys == mem.Keys
    && forall a {:trigger mem'[a]} :: a in mem && mem'[a] != mem[a] ==> Owner(l, orig, a) == v && !Loose(l, orig, done, a)
  }

  lemma OthersStay(mem: Memory, mem': Memory, l: Layout, orig: Memory, th: Threads, done: set<Addr>, plan: map<Addr,
      Addr>, k: Addr, v: Addr, w: Addr)
    requires w in l.blocks && ThreadsAt(l, orig, th, done, w) && StateOf(mem, l, orig, th, done, plan, k, w) && v != w
    requires ChangesOwned(mem, mem', l, orig, done, v)
    ensures StateOf(mem', l, orig, th, done, plan, k, w)
  {
    var t := th[w];
    if w > k {
      forall off: nat, a: Addr | a in Slots(t, off) ensures off == 0 || off in t.order {
        assert a in Slots(th[w], off);
      }
      ChainMoves(mem, w - 1, mem', w - 1, Slots(t, 0), false, DirectEnd(l.blocks[w], t));
      InfixChainsFrame(mem, mem', w, t.order, t, t, Ehd(l.blocks[w].size, l.blocks[w].tag));
    }
  }

  /** One block settled. */
  lemma RevertStep(mem: Memory, mem': Memory, l: Layout, orig: Memory, th: Threads, done: set<Addr>, plan: map<Addr,
      Addr>, k: Addr, v: Addr, next: Addr)
    requires Reverting(mem, l, orig, th, done, plan, k) && v in l.blocks && k < v <= next
    requires ChangesOwned(mem, mem', l, orig, done, v) && Settled(mem', l, th, plan, v)
    requires forall w: Addr :: w in l.blocks && k < w <= next ==> w == v
    ensures Reverting(mem', l, orig, th, done, plan, next)
  {
    forall w | w in l.blocks ensures StateOf(mem', l, orig, th, done, plan, next, w) {
      assert ThreadsAt(l, orig, th, done, w) && StateOf(mem, l, orig, th, done, plan, k, w);
      if w != v {
        OthersStay(mem, mem', l, orig, th, done, plan, k, v, w);
      }
    }
    forall p | Loose(l, orig, done, p) ensures p in mem' && mem'[p] == orig[p] {
    }
  }

  lemma NoBlockBetween(mem: Memory, l: Layout, orig: Memory, th: Threads, done: set<Addr>, plan: map<Addr, Addr>,
      k: Addr, next: Addr)
    requires Reverting(mem, l, orig, th, done, plan, k) && k <= next
    requires forall w: Addr :: w in l.blocks && k < w ==> next < w
    ensures Reverting(mem, l, orig, th, done, plan, next)
  {
    forall w | w in l.blocks ensures StateOf(mem, l, orig, th, done, plan, next, w) {
      assert StateOf(mem, l, orig, th, done, plan, k, w);
    }
  }

  // ---------------------------------------------------------------- the two kinds of blocks

  /** A block with pointers to it, all its lists unwound. */
  lemma LiveSettled(before: Memory, mem: Memory, l: Layout, orig: Memory, th: Threads, done: set<Addr>,
      plan: map<Addr, Addr>, v: Addr)
    requires v in l.blocks && ThreadsAt(l, orig, th, done, v) && BlockInv(before, l, orig, th, done, v)
    requires v in plan && IsLive(th[v]) && Part(before, mem, v, l.blocks[v], th[v], plan[v], th[v].order)
    ensures Settled(mem, l, th, plan, v) && ChangesOwned(before, mem, l, orig, done, v)
  {
    SlotsSettled(mem, l, orig, th, done, v, plan[v]);
    forall off | off in l.blocks[v].infix ensures InfixAt(v, off) in mem && mem[InfixAt(v, off)] == InfixHd(off) {
      if off in th[v].order {
        assert Rebuilt(mem, v, th[v], plan[v], off);
      } else {
        UnusedInfix(before, mem, l, orig, th, done, plan[v], v, off);
      }
    }
    OnlyOwned(before, mem, l, orig, th, done, plan, v);
  }

  lemma SlotsSettled(mem: Memory, l: Layout, orig: Memory, th: Threads, done: set<Addr>, v: Addr, nv: Addr)
    requires v in l.blocks && ThreadsAt(l, orig, th, done, v)
    requires forall a :: a in Slots(th[v], 0) ==> a in mem && mem[a] == Ptr(nv)
    requires forall off {:trigger Rebuilt(mem, v, th[v], nv, off)} :: off in th[v].order ==> Rebuilt(mem, v, th[v], nv, off)
    ensures forall off: nat, p: Addr {:trigger p in Slots(th[v], off)} :: p in Slots(th[v], off) ==> p in mem && mem[p] == Ptr(nv + off)
  {
    forall off: nat, p: Addr | p in Slots(th[v], off) ensures p in mem && mem[p] == Ptr(nv + off) {
      if off != 0 { assert Rebuilt(mem, v, th[v], nv, off); }
    }
  }

  lemma UnusedInfix(before: Memory, mem: Memory, l: Layout, orig: Memory, th: Threads, done: set<Addr>, nv: Addr,
      v: Addr, off: nat)
    requires v in l.blocks && ThreadsAt(l, orig, th, done, v) && off in l.blocks[v].infix && off !in th[v].order
    requires InfixAt(v, off) >= 0 && InfixAt(v, off) in before
             && Part(before, mem, v, l.blocks[v], th[v], nv, th[v].order)
    ensures InfixAt(v, off) in mem && mem[InfixAt(v, off)] == before[InfixAt(v, off)]
  {
    var a: Addr, t := InfixAt(v, off), th[v];
    forall o: nat ensures a !in Slots(t, o) {
      assert a in Slots(th[v], o) ==> !IsInfixHeader(l, a);
    }
    forall o: nat ensures !OnList(v, t, t.order, o, a) { }
    assert !OnLists(v, t, t.order, a);
  }

  lemma OnlyOwned(before: Memory, mem: Memory, l: Layout, orig: Memory, th: Threads, done: set<Addr>, plan: map<Addr,
      Addr>, v: Addr)
    requires v in l.blocks && ThreadsAt(l, orig, th, done, v)
    requires v in plan && Part(before, mem, v, l.blocks[v], th[v], plan[v], th[v].order)
    ensures ChangesOwned(before, mem, l, orig, done, v)
  {
    var t := th[v];
    forall a | a in mem && mem[a] != before[a] ensures Owner(l, orig, a) == v && !Loose(l, orig, done, a) {
      if a in Slots(t, 0) {
        SlotOwned(l, orig, th, done, v, 0, a);
      } else if a != v - 1 {
        var off: nat :| OnList(v, t, t.order, off, a);
        if a in Slots(t, off) { SlotOwned(l, orig, th, done, v, off, a); }
      }
    }
  }

  lemma SlotOwned(l: Layout, orig: Memory, th: Threads, done: set<Addr>, v: Addr, off: nat, a: Addr)
    requires v in l.blocks && ThreadsAt(l, orig, th, done, v) && a in Slots(th[v], off)
             && (off == 0 || off in th[v].order)
    ensures Owner(l, orig, a) == v && !Loose(l, orig, done, a)
  {
  }

  /** A block without pointers to it: it is free. */
  lemma DeadSettled(before: Memory, l: Layout, orig: Memory, th: Threads, done: set<Addr>, plan: map<Addr, Addr>,
      v: Addr)
    requires v in l.blocks && ThreadsAt(l, orig, th, done, v) && BlockInv(before, l, orig, th, done, v)
    requires v !in plan && !IsLive(th[v])
    ensures v - 1 in before && before[v - 1] == Ehd(l.blocks[v].size, l.blocks[v].tag)
    ensures var mem := before[v - 1 := Hd(l.blocks[v].size, l.blocks[v].tag, true)];
            Settled(mem, l, th, plan, v) && ChangesOwned(before, mem, l, orig, done, v)
  {
    forall off: nat ensures Slots(th[v], off) == [] { HasElement(Slots(th[v], off)); }
  }

  /** What the header word of a block tells. */
  lemma HeaderTells(mem: Memory, l: Layout, orig: Memory, th: Threads, done: set<Addr>, v: Addr)
    requires v in l.blocks && BlockInv(mem, l, orig, th, done, v) && BlockOk(l, v)
    ensures v - 1 in mem && (IsLive(th[v]) <==> mem[v - 1].Ptr? || (mem[v - 1].Ehd? && mem[v - 1].tag == INFIX_TAG))
  {
  }
}
