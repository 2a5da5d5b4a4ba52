// Pass 2 of compaction (compact.c): inverting every slot once.  The threads from
// a block always hold exactly the slots inverted so far that point to it.

module Inversion {
  import opened Basics
  import opened Threading

  /** The blocks of the heap by the address of their first field; `base` maps every address that a
      pointer into the heap may hold, a block or an infix position, to its block. */
  datatype Layout = Layout(blocks: map<Addr, Block>, base: map<Addr, Addr>)

  ghost predicate BlockOk(l: Layout, v: Addr)
    requires v in l.blocks
  {
    var b := l.blocks[v];
    && v > 0 && b.tag < 256 && b.tag != INFIX_TAG && (b.infix != {} ==> b.tag == CLOSURE_TAG)
    && v in l.base && l.base[v] == v
    && forall off :: off in b.infix ==> 2 <= off <= b.size && v + off in l.base && l.base[v + off] == v
  }

  ghost predicate TargetOk(l: Layout, a: Addr)
    requires a in l.base
  {
    var v := l.base[a];
    v in l.blocks && v <= a && (a == v || a - v in l.blocks[v].infix)
  }

  ghost predicate Separate(l: Layout, v: Addr, w: Addr)
    requires v in l.blocks
  {
    v + l.blocks[v].size < w
  }

  ghost predicate GoodLayout(l: Layout) {
    && (forall v {:trigger BlockOk(l, v)} :: v in l.blocks ==> BlockOk(l, v))
    && (forall a {:trigger TargetOk(l, a)} :: a in l.base ==> TargetOk(l, a))
    && forall v, w {:trigger Separate(l, v, w)} :: v in l.blocks && w in l.blocks && v < w ==> Separate(l, v, w)
  }

  ghost predicate IsHeader(l: Layout, a: Addr) {
    a + 1 in l.blocks
  }

  ghost predicate IsInfixHeader(l: Layout, a: Addr) {
    a + 1 in l.base && l.base[a + 1] != a + 1
  }

  /** The memory before the pass: encoded headers, infix headers, anything else in slots. */
  ghost predicate SourceAt(l: Layout, orig: Memory, v: Addr)
    requires v in l.blocks
  {
    && v > 0 && v - 1 in orig && orig[v - 1] == Ehd(l.blocks[v].size, l.blocks[v].tag)
    && forall off :: off in l.blocks[v].infix ==> InfixAt(v, off) >= 0 && InfixAt(v, off) in orig && orig[InfixAt(v, off)] == InfixHd(off)
  }

  ghost predicate Source(l: Layout, orig: Memory) {
    forall v {:trigger SourceAt(l, orig, v)} :: v in l.blocks ==> SourceAt(l, orig, v)
  }

  /** Slot `p` points into the heap. */
  predicate Points(l: Layout, orig: Memory, p: Addr) {
    p in orig && orig[p].Ptr? && orig[p].a in l.base
  }

  // ---------------------------------------------------------------- the invariant

  type Threads = map<Addr, Thread>

  /** The threads of a block: inverted slots that point to it, each in the list of its offset. */
  ghost predicate ThreadShape(b: Block, orig: Memory, t: Thread, done: set<Addr>, v: Addr) {
    && Distinct(t.order)
    && (forall off :: off in t.order ==> off in b.infix && Slots(t, off) != [])
    && (forall off: nat, p: Addr {:trigger p in Slots(t, off)} :: p in Slots(t, off) ==> p in done && p in orig && orig[p] == Ptr(v + off) && (off == 0 || off in t.order))
    && (forall off: nat :: Distinct(Slots(t, off)))
  }

  /** The threads of block `v` in memory. */
  ghost predicate BlockInv(mem: Memory, l: Layout, orig: Memory, th: Threads, done: set<Addr>, v: Addr)
    requires v in l.blocks
  {
    && v > 0 && v in th && Threaded(mem, v, l.blocks[v], th[v]) && ThreadShape(l.blocks[v], orig, th[v], done, v)
    && forall off :: off in l.blocks[v].infix && off !in th[v].order ==> InfixAt(v, off) in mem && mem[InfixAt(v, off)] == InfixHd(off)
  }

  /** Slot `p`: threaded if it has been inverted and points into the heap, otherwise unchanged. */
  ghost predicate SlotInv(mem: Memory, l: Layout, orig: Memory, th: Threads, done: set<Addr>, p: Addr)
    requires p in orig
  {
    if IsHeader(l, p) || IsInfixHeader(l, p) then p !in done
    else if p in done && Points(l, orig, p) then
      var v := l.base[orig[p].a];
      v in th && v <= orig[p].a && p in Slots(th[v], orig[p].a - v)
    else p in mem && mem[p] == orig[p]
  }

  ghost predicate Inv(mem: Memory, l: Layout, orig: Memory, th: Threads, done: set<Addr>) {
    && GoodLayout(l) && Source(l, orig) && mem.Keys == orig.Keys
    && (forall v {:trigger BlockInv(mem, l, orig, th, done, v)} :: v in l.blocks ==> BlockInv(mem, l, orig, th, done, v))
    && forall p {:trigger SlotInv(mem, l, orig, th, done, p)} :: p in orig ==> SlotInv(mem, l, orig, th, done, p)
  }

  // ---------------------------------------------------------------- headers and slots

  /** The block whose threads run through word `a`, if any: its header, one of its infix headers, or a
      slot that points to it. */
  function Owner(l: Layout, orig: Memory, a: Addr): Addr {
    if a + 1 in l.blocks then a + 1
    else if a + 1 in l.base then l.base[a + 1]
    else if Points(l, orig, a) then l.base[orig[a].a]
    else 0
  }

  /** Where a thread runs. */
  ghost predicate RunsThrough(l: Layout, orig: Memory, t: Thread, v: Addr, done: set<Addr>) {
    forall off: nat, a: Addr {:trigger a in Slots(t, off)} :: a in Slots(t, off) ==>
      a in done && a in orig && orig[a] == Ptr(v + off) && !IsHeader(l, a) && !IsInfixHeader(l, a) && Owner(l, orig, a) == v
  }

  lemma CellsOwned(mem: Memory, l: Layout, orig: Memory, th: Threads, done: set<Addr>, v: Addr)
    requires Inv(mem, l, orig, th, done) && v in l.blocks
    ensures v > 0 && v in th && RunsThrough(l, orig, th[v], v, done) && BlockInv(mem, l, orig, th, done, v)
    ensures Owner(l, orig, v - 1) == v && IsHeader(l, v - 1)
    ensures forall off :: off in l.blocks[v].infix ==> off >= 2 && InfixAt(v, off) != v - 1 && IsInfixHeader(l, InfixAt(v, off)) && Owner(l, orig, InfixAt(v, off)) == v
  {
    assert BlockOk(l, v) && BlockInv(mem, l, orig, th, done, v);
    forall off | off in l.blocks[v].infix ensures InfixAt(v, off) != v - 1 && IsInfixHeader(l, InfixAt(v, off)) && Owner(l, orig, InfixAt(v, off)) == v {
      assert v + off in l.blocks ==> BlockOk(l, v + off);
    }
    forall off, a | a in Slots(th[v], off)
      ensures a in done && a in orig && orig[a] == Ptr(v + off) && !IsHeader(l, a) && !IsInfixHeader(l, a)
              && Owner(l, orig, a) == v
    {
      assert SlotInv(mem, l, orig, th, done, a);
      assert a + 1 in l.base ==> TargetOk(l, a + 1);
    }
  }

  /** A slot that is not inverted yet lies apart from the threads of its block. */
  lemma ApartFromThreads(mem: Memory, l: Layout, orig: Memory, th: Threads, done: set<Addr>, v: Addr, p: Addr)
    requires Inv(mem, l, orig, th, done) && v in l.blocks && p !in done && !IsHeader(l, p) && !IsInfixHeader(l, p)
    ensures v > 0 && v in th && Apart(v, th[v], p) && 0 !in th[v].order
    ensures forall off, o :: off in l.blocks[v].infix ==> off >= 2 && p != InfixAt(v, off) && InfixAt(v, off) !in Slots(th[v], o)
  {
    CellsOwned(mem, l, orig, th, done, v);
    assert forall off :: off in th[v].order ==> off in l.blocks[v].infix;
    ApartByKind(l, orig, th[v], v, l.blocks[v].infix, done, p);
  }

  lemma ApartByKind(l: Layout, orig: Memory, t: Thread, v: Addr, infix: set<nat>, done: set<Addr>, p: Addr)
    requires v > 0 && RunsThrough(l, orig, t, v, done) && p !in done && !IsHeader(l, p) && !IsInfixHeader(l, p)
             && IsHeader(l, v - 1)
    requires forall off :: off in infix ==> off >= 2 && IsInfixHeader(l, InfixAt(v, off)) && InfixAt(v, off) != v - 1
    requires (forall off :: off in t.order ==> off in infix) && Distinct(Slots(t, 0))
    ensures Apart(v, t, p) && 0 !in t.order
    ensures forall off, o :: off in infix ==> p != InfixAt(v, off) && InfixAt(v, off) !in Slots(t, o)
  {
    TidyByKind(l, orig, t, v, infix, done);
  }

  lemma TidyByKind(l: Layout, orig: Memory, t: Thread, v: Addr, infix: set<nat>, done: set<Addr>)
    requires v > 0 && RunsThrough(l, orig, t, v, done) && IsHeader(l, v - 1)
    requires forall off :: off in infix ==> off >= 2 && IsInfixHeader(l, InfixAt(v, off)) && InfixAt(v, off) != v - 1
    requires (forall off :: off in t.order ==> off in infix) && Distinct(Slots(t, 0))
    ensures Tidy(v, t)
  {
    forall off: nat, o: nat, a: Addr | a in Slots(t, off) && a in Slots(t, o) ensures off == o {
      assert orig[a] == Ptr(v + off) && orig[a] == Ptr(v + o);
    }
  }

  /** Changes to words of block `v` leave the threads of other blocks. */
  lemma OtherBlock(mem: Memory, mem': Memory, l: Layout, orig: Memory, th: Threads, th': Threads, done: set<Addr>,
      v: Addr, w: Addr, p: Addr)
    requires Inv(mem, l, orig, th, done) && w in l.blocks && v != w && w in th && w in th' && th'[w] == th[w]
    requires mem'.Keys == mem.Keys && forall a :: a in mem && mem'[a] != mem[a] ==> Owner(l, orig, a) == v
    ensures BlockInv(mem', l, orig, th', done + {p}, w)
  {
    CellsOwned(mem, l, orig, th, done, w);
    var t := th[w];
    forall off: nat, a: Addr | a in Slots(t, off) ensures off == 0 || off in t.order {
      assert a in Slots(th[w], off);
    }
    ChainMoves(mem, w - 1, mem', w - 1, Slots(t, 0), false, DirectEnd(l.blocks[w], t));
    InfixChainsFrame(mem, mem', w, t.order, t, t, Ehd(l.blocks[w].size, l.blocks[w].tag));
  }

  /** `mem'` differs from `mem` only in slot `p` and in words that belong to the threads of block `v`. */
  ghost predicate ChangesOnly(mem: Memory, mem': Memory, l: Layout, orig: Memory, done: set<Addr>, v: Addr, p: Addr) {
    mem'.Keys == mem.Keys
    && forall a :: a in mem && mem'[a] != mem[a] ==> Owner(l, orig, a) == v && (a == p || IsHeader(l, a) || IsInfixHeader(l, a) || a in done)
  }

  lemma OtherSlot(mem: Memory, mem': Memory, l: Layout, orig: Memory, th: Threads, t': Thread, done: set<Addr>,
      v: Addr, p: Addr, a: Addr)
    requires Inv(mem, l, orig, th, done) && v in l.blocks && Points(l, orig, p) && l.base[orig[p].a] == v
    requires p !in done && !IsHeader(l, p) && !IsInfixHeader(l, p) && ChangesOnly(mem, mem', l, orig, done, v, p)
    requires v <= orig[p].a && p in Slots(t', orig[p].a - v)
    requires v in th && forall off, x :: x in Slots(th[v], off) ==> x in Slots(t', off)
    requires a in orig
    ensures SlotInv(mem', l, orig, th[v := t'], done + {p}, a)
  {
    assert SlotInv(mem, l, orig, th, done, a) && BlockOk(l, v);
    assert a + 1 in l.base ==> TargetOk(l, a + 1);
  }

  /** One slot inverted: if the threads of its block are right, everything is. */
  lemma InvertStep(mem: Memory, mem': Memory, l: Layout, orig: Memory, th: Threads, t': Thread, done: set<Addr>,
      v: Addr, p: Addr)
    requires Inv(mem, l, orig, th, done) && v in l.blocks && Points(l, orig, p) && l.base[orig[p].a] == v
    requires p !in done && !IsHeader(l, p) && !IsInfixHeader(l, p) && ChangesOnly(mem, mem', l, orig, done, v, p)
    requires BlockInv(mem', l, orig, th[v := t'], done + {p}, v)
    requires v <= orig[p].a && p in Slots(t', orig[p].a - v)
    requires v in th && forall off, a :: a in Slots(th[v], off) ==> a in Slots(t', off)
    ensures Inv(mem', l, orig, th[v := t'], done + {p})
  {
    var th', done' := th[v := t'], done + {p};
    forall w | w in l.blocks ensures BlockInv(mem', l, orig, th', done', w) {
      if w != v {
        CellsOwned(mem, l, orig, th, done, w);
        OtherBlock(mem, mem', l, orig, th, th', done, v, w, p);
      }
    }
    forall a | a in orig ensures SlotInv(mem', l, orig, th', done', a) {
      OtherSlot(mem, mem', l, orig, th, t', done, v, p, a);
    }
  }

  // ---------------------------------------------------------------- the three cases

  /** A slot that points to the block itself: it is threaded from the header. */
  lemma InvertDirect(mem: Memory, l: Layout, orig: Memory, th: Threads, done: set<Addr>, v: Addr, p: Addr)
    requires Inv(mem, l, orig, th, done) && v in l.blocks && Points(l, orig, p) && orig[p].a == v
    requires p !in done && !IsHeader(l, p) && !IsInfixHeader(l, p)
    ensures v > 0 && v in th && v - 1 in mem && (mem[v - 1].Ptr? || mem[v - 1].Ehd?)
    ensures Inv(mem[p := mem[v - 1]][v - 1 := Ptr(p)], l, orig, th[v := Pushed(th[v], 0, p)], done + {p})
  {
    assert BlockOk(l, v);
    CellsOwned(mem, l, orig, th, done, v);
    ApartFromThreads(mem, l, orig, th, done, v, p);
    ThreadDirect(mem, v, l.blocks[v], th[v], p);
    var t' := Pushed(th[v], 0, p);
    var mem' := mem[p := mem[v - 1]][v - 1 := Ptr(p)];
    OwnerOfSlot(l, orig, p);
    PushShape(l.blocks[v], orig, th[v], done, v, 0, p, th[v].order);
    InvertStep(mem, mem', l, orig, th, t', done, v, p);
  }

  /** Adding a slot to one of the lists, which may be a new one. */
  lemma PushShape(b: Block, orig: Memory, t: Thread, done: set<Addr>, v: Addr, off: nat, p: Addr, order: seq<nat>)
    requires ThreadShape(b, orig, t, done, v) && p in orig && orig[p] == Ptr(v + off) && p !in done
    requires order == t.order || (order == [off] + t.order && off in b.infix && off !in t.order)
    requires off == 0 || off in order
    ensures ThreadShape(b, orig, Pushed(t, off, p).(order := order), done + {p}, v)
    ensures p in Slots(Pushed(t, off, p), off)
    ensures forall o: nat, a: Addr :: a in Slots(t, o) ==> a in Slots(Pushed(t, off, p), o)
  {
    var t' := Pushed(t, off, p).(order := order);
    assert Slots(t', off) == [p] + Slots(t, off);
    assert forall o :: o in order ==> o in t.order || o == off;
    forall o: nat, a: Addr | a in Slots(t', o) ensures a in done + {p} && a in orig && orig[a] == Ptr(v + o) && (o == 0 || o in order) {
      assert a != p || o != off ==> a in Slots(t, o);
    }
    forall o: nat ensures Distinct(Slots(t', o)) { assert p !in Slots(t, off); assert Distinct(Slots(t, o)); }
    assert p in [p] + Slots(t, off);
  }

  lemma OwnerOfSlot(l: Layout, orig: Memory, p: Addr)
    requires GoodLayout(l) && Points(l, orig, p) && !IsHeader(l, p) && !IsInfixHeader(l, p)
    ensures Owner(l, orig, p) == l.base[orig[p].a] && l.base[orig[p].a] in l.blocks && l.base[orig[p].a] <= orig[p].a
    ensures var v := l.base[orig[p].a]; orig[p].a == v || orig[p].a - v in l.blocks[v].infix
  {
    assert TargetOk(l, orig[p].a);
    assert p + 1 in l.base ==> TargetOk(l, p + 1);
  }

  /** A slot that points to an infix position that has slots already. */
  lemma InvertInfix(mem: Memory, l: Layout, orig: Memory, th: Threads, done: set<Addr>, v: Addr, off: nat, p: Addr)
    requires Inv(mem, l, orig, th, done) && v in l.blocks && Points(l, orig, p) && orig[p].a == v + off
             && l.base[v + off] == v
    requires off in l.blocks[v].infix && v in th && off in th[v].order
    requires p !in done && !IsHeader(l, p) && !IsInfixHeader(l, p)
    ensures v > 0 && off >= 2 && InfixAt(v, off) in mem && mem[InfixAt(v, off)].InvInfix?
    ensures Inv(mem[p := mem[InfixAt(v, off)]][InfixAt(v, off) := InvInfix(p)], l, orig, th[v := Pushed(th[v], off, p)], done + {p})
  {
    assert BlockOk(l, v);
    CellsOwned(mem, l, orig, th, done, v);
    ApartFromThreads(mem, l, orig, th, done, v, p);
    ThreadInfix(mem, v, l.blocks[v], th[v], off, p);
    InfixHead(mem, v, th[v].order, th[v], Ehd(l.blocks[v].size, l.blocks[v].tag), off);
    var h := InfixAt(v, off);
    var mem' := mem[p := mem[h]][h := InvInfix(p)];
    OwnerOfSlot(l, orig, p);
    assert forall o :: o in l.blocks[v].infix && InfixAt(v, o) == h ==> o == off;
    PushShape(l.blocks[v], orig, th[v], done, v, off, p, th[v].order);
    InvertStep(mem, mem', l, orig, th, Pushed(th[v], off, p), done, v, p);
  }

  /** The header of an infix position with a list starts that list. */
  lemma {:induction false} InfixHead(mem: Memory, v: Addr, order: seq<nat>, t: Thread, hd: Word, off: nat)
    requires v > 0 && InfixChains(mem, v, order, t, hd) && off in order && Slots(t, off) != []
    ensures InfixAt(v, off) in mem && mem[InfixAt(v, off)].InvInfix?
    decreases |order|
  {
    if order[0] != off { InfixHead(mem, v, order[1..], t, hd, off); }
  }

  /** The first slot that points to an infix position. */
  lemma InvertNewInfix(mem: Memory, l: Layout, orig: Memory, th: Threads, done: set<Addr>, v: Addr, off: nat, p: Addr)
    requires Inv(mem, l, orig, th, done) && v in l.blocks && Points(l, orig, p) && orig[p].a == v + off
             && l.base[v + off] == v
    requires off in l.blocks[v].infix && v in th && off !in th[v].order
    requires p !in done && !IsHeader(l, p) && !IsInfixHeader(l, p)
    ensures v > 0 && off >= 2 && InfixAt(v, off) in mem && mem[InfixAt(v, off)] == InfixHd(off)
    ensures var c := Last(v - 1, Slots(th[v], 0)); c in mem && mem[c] == DirectEnd(l.blocks[v], th[v])
    ensures Inv(WithNewInfix(mem, v, th[v], off, p), l, orig, th[v := Pushed(th[v], off, p).(order := [off] + th[v].order)], done + {p})
  {
    var t := th[v];
    IsFresh(mem, l, orig, th, done, v, off, p);
    ThreadNewInfix(mem, v, l.blocks[v], t, off, p);
    NewInfixChanges(mem, l, orig, th, done, v, off, p);
    NewInfixThread(mem, l, orig, th, done, v, off, p);
    PushShape(l.blocks[v], orig, t, done, v, off, p, [off] + t.order);
    InvertStep(mem, WithNewInfix(mem, v, t, off, p), l, orig, th, Pushed(t, off, p).(order := [off] + t.order), done,
        v, p);
  }

  lemma IsFresh(mem: Memory, l: Layout, orig: Memory, th: Threads, done: set<Addr>, v: Addr, off: nat, p: Addr)
    requires Inv(mem, l, orig, th, done) && v in l.blocks && p !in done && !IsHeader(l, p) && !IsInfixHeader(l, p)
    requires off in l.blocks[v].infix && v in th && off !in th[v].order
    ensures v > 0 && off >= 2 && FreshInfix(mem, v, l.blocks[v], th[v], off, p) && mem[InfixAt(v, off)] == InfixHd(off)
    ensures BlockInv(mem, l, orig, th, done, v)
  {
    assert BlockInv(mem, l, orig, th, done, v);
    ApartFromThreads(mem, l, orig, th, done, v, p);
    NoSlotsYet(mem, l, orig, th, done, v, off);
  }

  lemma NewInfixThread(mem: Memory, l: Layout, orig: Memory, th: Threads, done: set<Addr>, v: Addr, off: nat, p: Addr)
    requires v in l.blocks && BlockInv(mem, l, orig, th, done, v) && p !in done && off in l.blocks[v].infix
             && off !in th[v].order
    requires p in orig && orig[p] == Ptr(v + off)
    requires v > 0 && off >= 2 && FreshInfix(mem, v, l.blocks[v], th[v], off, p)
    requires Last(v - 1, Slots(th[v], 0)) in mem && mem[Last(v - 1, Slots(th[v], 0))].Ehd?
    requires forall o :: o in l.blocks[v].infix && o != off && InfixAt(v, o) in mem ==>
               InfixAt(v, o) in WithNewInfix(mem, v, th[v], off, p) && WithNewInfix(mem, v, th[v], off, p)[InfixAt(v, o)] == mem[InfixAt(v, o)]
    ensures BlockInv(WithNewInfix(mem, v, th[v], off, p), l, orig, th[v := Pushed(th[v], off, p).(order := [off] + th[v].order)], done + {p}, v)
  {
    ThreadNewInfix(mem, v, l.blocks[v], th[v], off, p);
    PushShape(l.blocks[v], orig, th[v], done, v, off, p, [off] + th[v].order);
    assert off in [off] + th[v].order;
    assert forall o :: o in th[v].order ==> o in [off] + th[v].order;
  }

  lemma NewInfixChanges(mem: Memory, l: Layout, orig: Memory, th: Threads, done: set<Addr>, v: Addr, off: nat, p: Addr)
    requires Inv(mem, l, orig, th, done) && v in l.blocks && Points(l, orig, p) && l.base[orig[p].a] == v
    requires off in l.blocks[v].infix && off > 0 && v > 0 && v in th && InfixAt(v, off) in mem
    requires p !in done && !IsHeader(l, p) && !IsInfixHeader(l, p)
    requires Last(v - 1, Slots(th[v], 0)) in mem && mem[Last(v - 1, Slots(th[v], 0))].Ehd?
    ensures ChangesOnly(mem, WithNewInfix(mem, v, th[v], off, p), l, orig, done, v, p)
    ensures forall o :: o in l.blocks[v].infix && o != off && InfixAt(v, o) in mem ==>
              InfixAt(v, o) in WithNewInfix(mem, v, th[v], off, p) && WithNewInfix(mem, v, th[v], off, p)[InfixAt(v, o)] == mem[InfixAt(v, o)]
  {
    CellsOwned(mem, l, orig, th, done, v);
    OwnerOfSlot(l, orig, p);
    EndOfDirect(mem, v, l.blocks[v], th[v]);
    ApartFromThreads(mem, l, orig, th, done, v, p);
  }

  lemma NoSlotsYet(mem: Memory, l: Layout, orig: Memory, th: Threads, done: set<Addr>, v: Addr, off: nat)
    requires v in l.blocks && BlockInv(mem, l, orig, th, done, v) && off != 0 && off !in th[v].order
    ensures Slots(th[v], off) == []
  {
    HasElement(Slots(th[v], off));
  }

  lemma HasElement(s: seq<Addr>)
    ensures s != [] ==> exists a: Addr :: a in s
  {
    if s != [] { assert s[0] in s; }
  }
}
