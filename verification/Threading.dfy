// Pointer inversion (compact.c): the slots that point to a block are threaded
// in a list that starts at its header; the slots that point to an infix
// position are threaded in lists of their own, linked one after the other.

module Threading {
  import opened Basics

  type Addr = nat

  const CLOSURE_TAG: nat := 247
  const INFIX_TAG: nat := 249

  /** A word of memory.  Its color, the two low bits, tells the cases apart: 0 for Ptr; 2 for InvInfix,
      a pointer in an inverted infix list; 3 for an encoded header; 1 or 3 for an immediate; 1 for an
      infix header and for NextInfix, which ends one infix list and points to the next infix header. */
  datatype Word =
    | Imm(n: int)
    | Ptr(a: Addr)
    | InvInfix(p: Addr)
    | NextInfix(h: Addr)
    | Ehd(size: nat, tag: nat)
    | InfixHd(ofs: nat)
    | Hd(hsize: nat, htag: nat, blue: bool)

  type Memory = map<Addr, Word>

  /** A block by the address of its first field: its size, its tag, and where its infix positions are. */
  datatype Block = Block(size: nat, tag: nat, infix: set<nat>)

  /** The slots threaded from a block: those that point to offset 0, its first field, and those that
      point to infix positions, the last one inverted first; the infix positions in the order of their
      lists. */
  datatype Thread = Thread(order: seq<nat>, slots: map<nat, seq<Addr>>)

  function Slots(t: Thread, off: nat): seq<Addr> {
    if off in t.slots then t.slots[off] else []
  }

  /** The pointers that link a list. */
  function Link(infix: bool, p: Addr): Word {
    if infix then InvInfix(p) else Ptr(p)
  }

  /** From the word at `at`, the pointers lead through `slots` to a slot that holds `end`. */
  ghost predicate Chain(mem: Memory, at: Addr, slots: seq<Addr>, infix: bool, end: Word)
    decreases |slots|
  {
    at in mem && if slots == [] then mem[at] == end else mem[at] == Link(infix, slots[0]) && Chain(mem, slots[0], slots[1..], infix, end)
  }

  /** The last word of a list, which holds its end. */
  function Last(at: Addr, slots: seq<Addr>): Addr {
    if slots == [] then at else slots[|slots| - 1]
  }

  /** The header of the infix position at offset `off` of block `v`. */
  function InfixAt(v: Addr, off: nat): Addr
    requires v > 0
  {
    v + off - 1
  }

  /** The infix lists of a block, one after the other; the last one ends in the original header. */
  ghost predicate InfixChains(mem: Memory, v: Addr, order: seq<nat>, t: Thread, hd: Word)
    requires v > 0
    decreases |order|
  {
    order == [] ||
    (Chain(mem, InfixAt(v, order[0]), Slots(t, order[0]), true, if |order| == 1 then hd else NextInfix(InfixAt(v, order[1])))
     && InfixChains(mem, v, order[1..], t, hd))
  }

  /** What the list from the header of a block ends with: the encoded header, or an infix tag and the
      place of the first infix list. */
  function DirectEnd(b: Block, t: Thread): Word {
    if t.order == [] then Ehd(b.size, b.tag) else Ehd(if t.order[0] > 0 then t.order[0] - 1 else 0, INFIX_TAG)
  }

  ghost predicate Threaded(mem: Memory, v: Addr, b: Block, t: Thread)
    requires v > 0
  {
    && Chain(mem, v - 1, Slots(t, 0), false, DirectEnd(b, t))
    && InfixChains(mem, v, t.order, t, Ehd(b.size, b.tag))
  }

  // ---------------------------------------------------------------- lists

  lemma {:induction false} ChainMoves(mem: Memory, at: Addr, mem': Memory, at': Addr, slots: seq<Addr>, infix: bool,
      end: Word)
    requires Chain(mem, at, slots, infix, end)
    requires at' in mem' && mem'[at'] == mem[at]
    requires forall a :: a in slots && a in mem ==> a in mem' && mem'[a] == mem[a]
    ensures Chain(mem', at', slots, infix, end)
    decreases |slots|
  {
    if slots != [] { ChainMoves(mem, slots[0], mem', slots[0], slots[1..], infix, end); }
  }

  /** Threading one more slot: it takes the contents of the head, which points to it. */
  lemma ChainPush(mem: Memory, at: Addr, slots: seq<Addr>, infix: bool, end: Word, p: Addr)
    requires Chain(mem, at, slots, infix, end) && p != at && p !in slots && at !in slots
    ensures Chain(mem[p := mem[at]][at := Link(infix, p)], at, [p] + slots, infix, end)
  {
    var mem' := mem[p := mem[at]][at := Link(infix, p)];
    ChainMoves(mem, at, mem', p, slots, infix, end);
    assert ([p] + slots)[1..] == slots;
  }

  lemma {:induction false} ChainEnd(mem: Memory, at: Addr, slots: seq<Addr>, infix: bool, end: Word)
    requires Chain(mem, at, slots, infix, end)
    ensures Last(at, slots) in mem && mem[Last(at, slots)] == end
    decreases |slots|
  {
    if slots != [] { ChainEnd(mem, slots[0], slots[1..], infix, end); }
  }

  /** Changing what a list ends with. */
  lemma {:induction false} ChainRetarget(mem: Memory, at: Addr, slots: seq<Addr>, infix: bool, end: Word, end': Word)
    requires Chain(mem, at, slots, infix, end) && Distinct([at] + slots)
    ensures Chain(mem[Last(at, slots) := end'], at, slots, infix, end')
    decreases |slots|
  {
    if slots != [] {
      var s := [at] + slots;
      assert s[0] == at && s[|s| - 1] == Last(at, slots);
      assert [slots[0]] + slots[1..] == slots == s[1..];
      ChainRetarget(mem, slots[0], slots[1..], infix, end, end');
    }
  }

  /** Infix lists whose words are not changed stay. */
  lemma {:induction false} InfixChainsFrame(mem: Memory, mem': Memory, v: Addr, order: seq<nat>, t: Thread,
      t': Thread, hd: Word)
    requires v > 0 && InfixChains(mem, v, order, t, hd)
    requires forall off :: off in order ==> Slots(t', off) == Slots(t, off)
    requires forall off, a :: off in order && (a == InfixAt(v, off) || a in Slots(t, off)) && a in mem ==> a in mem' && mem'[a] == mem[a]
    ensures InfixChains(mem', v, order, t', hd)
    decreases |order|
  {
    if order != [] {
      var at := InfixAt(v, order[0]);
      ChainMoves(mem, at, mem', at, Slots(t, order[0]), true,
          if |order| == 1 then hd else NextInfix(InfixAt(v, order[1])));
      InfixChainsFrame(mem, mem', v, order[1..], t, t', hd);
    }
  }

  // ---------------------------------------------------------------- threading one slot

  function Pushed(t: Thread, off: nat, p: Addr): Thread {
    t.(slots := t.slots[off := [p] + Slots(t, off)])
  }

  /** The lists of a block do not share words. */
  ghost predicate Tidy(v: Addr, t: Thread)
    requires v > 0
  {
    && (v - 1) !in Slots(t, 0) && Distinct([(v - 1) as Addr] + Slots(t, 0))
    && (forall off :: off in t.order ==> off >= 2 && (v - 1) !in Slots(t, off))
    && (forall off, o :: off in t.order && o in t.order ==> InfixAt(v, off) !in Slots(t, o))
    && (forall off :: off in t.order ==> InfixAt(v, off) !in Slots(t, 0))
    && (forall off, a :: off in t.order && a in Slots(t, off) ==> a !in Slots(t, 0))
    && (forall off, o, a :: off in t.order && o in t.order && off != o && a in Slots(t, off) ==> a !in Slots(t, o))
  }

  /** Word `p` does not belong to the lists of a block. */
  ghost predicate Apart(v: Addr, t: Thread, p: Addr)
    requires v > 0
  {
    && Tidy(v, t) && p != v - 1 && p !in Slots(t, 0)
    && forall off :: off in t.order ==> p != InfixAt(v, off) && p !in Slots(t, off)
  }

  /** A slot that points to the block itself. */
  lemma ThreadDirect(mem: Memory, v: Addr, b: Block, t: Thread, p: Addr)
    requires v > 0 && Threaded(mem, v, b, t) && Apart(v, t, p) && 0 !in t.order
    ensures (v - 1) in mem && Threaded(mem[p := mem[v - 1]][v - 1 := Ptr(p)], v, b, Pushed(t, 0, p))
  {
    var mem', t' := mem[p := mem[v - 1]][v - 1 := Ptr(p)], Pushed(t, 0, p);
    ChainPush(mem, v - 1, Slots(t, 0), false, DirectEnd(b, t), p);
    InfixChainsFrame(mem, mem', v, t.order, t, t', Ehd(b.size, b.tag));
  }

  lemma {:induction false} InfixPush(mem: Memory, v: Addr, order: seq<nat>, t: Thread, hd: Word, off: nat, p: Addr)
    requires v > 0 && InfixChains(mem, v, order, t, hd) && off in order && Distinct(order)
    requires p != InfixAt(v, off) && InfixAt(v, off) !in Slots(t, off)
    requires forall o :: o in order ==> o >= 2 && p != InfixAt(v, o) && p !in Slots(t, o) && (o != off ==> InfixAt(v, off) !in Slots(t, o))
    ensures InfixAt(v, off) in mem
    ensures InfixChains(mem[p := mem[InfixAt(v, off)]][InfixAt(v, off) := InvInfix(p)], v, order, Pushed(t, off, p), hd)
    decreases |order|
  {
    var h, rest := InfixAt(v, off), order[1..];
    var end := if |order| == 1 then hd else NextInfix(InfixAt(v, order[1]));
    if order[0] == off {
      ChainPush(mem, h, Slots(t, off), true, end, p);
      var mem', t' := mem[p := mem[h]][h := InvInfix(p)], Pushed(t, off, p);
      assert forall o :: o in rest ==> o in order && o != off;
      InfixChainsFrame(mem, mem', v, rest, t, t', hd);
    } else {
      assert forall o :: o in rest ==> o in order;
      InfixPush(mem, v, rest, t, hd, off, p);
      var mem', t' := mem[p := mem[h]][h := InvInfix(p)], Pushed(t, off, p);
      ChainMoves(mem, InfixAt(v, order[0]), mem', InfixAt(v, order[0]), Slots(t, order[0]), true, end);
    }
  }

  /** A slot that points to an infix position that has a list already. */
  lemma ThreadInfix(mem: Memory, v: Addr, b: Block, t: Thread, off: nat, p: Addr)
    requires v > 0 && Threaded(mem, v, b, t) && Apart(v, t, p) && off in t.order && Distinct(t.order) && 0 !in t.order
    ensures InfixAt(v, off) in mem
    ensures Threaded(mem[p := mem[InfixAt(v, off)]][InfixAt(v, off) := InvInfix(p)], v, b, Pushed(t, off, p))
  {
    var h := InfixAt(v, off);
    InfixPush(mem, v, t.order, t, Ehd(b.size, b.tag), off, p);
    var mem' := mem[p := mem[h]][h := InvInfix(p)];
    ChainMoves(mem, v - 1, mem', v - 1, Slots(t, 0), false, DirectEnd(b, t));
  }

  /** Memory after the first slot that points to an infix position has been threaded. */
  function WithNewInfix(mem: Memory, v: Addr, t: Thread, off: nat, p: Addr): Memory
    requires v > 0 && off > 0 && Last(v - 1, Slots(t, 0)) in mem && mem[Last(v - 1, Slots(t, 0))].Ehd?
  {
    var c := Last(v - 1, Slots(t, 0));
    mem[p := if t.order == [] then mem[c] else NextInfix(v + mem[c].size)][InfixAt(v, off) := InvInfix(p)][c := Ehd(off - 1, INFIX_TAG)]
  }

  ghost predicate FreshInfix(mem: Memory, v: Addr, b: Block, t: Thread, off: nat, p: Addr)
    requires v > 0
  {
    && Threaded(mem, v, b, t) && Apart(v, t, p) && off !in t.order && off >= 2 && 0 !in t.order && Slots(t, off) == []
    && p != InfixAt(v, off) && InfixAt(v, off) in mem && InfixAt(v, off) !in Slots(t, 0)
    && forall o :: o in t.order ==> InfixAt(v, off) !in Slots(t, o)
  }

  lemma EndOfDirect(mem: Memory, v: Addr, b: Block, t: Thread)
    requires v > 0 && Threaded(mem, v, b, t)
    ensures var c := Last(v - 1, Slots(t, 0)); c in mem && mem[c] == DirectEnd(b, t) && (c == v - 1 || c in Slots(t, 0))
  {
    ChainEnd(mem, v - 1, Slots(t, 0), false, DirectEnd(b, t));
    LastInside(v - 1, Slots(t, 0));
  }

  lemma NewInfixDirect(mem: Memory, v: Addr, b: Block, t: Thread, off: nat, p: Addr)
    requires v > 0 && FreshInfix(mem, v, b, t, off, p)
    ensures Last(v - 1, Slots(t, 0)) in mem && mem[Last(v - 1, Slots(t, 0))] == DirectEnd(b, t)
    ensures Chain(WithNewInfix(mem, v, t, off, p), v - 1, Slots(t, 0), false, Ehd(off - 1, INFIX_TAG))
  {
    EndOfDirect(mem, v, b, t);
    var c := Last(v - 1, Slots(t, 0));
    var mem1 := mem[p := if t.order == [] then mem[c] else NextInfix(v + mem[c].size)][InfixAt(v, off) := InvInfix(p)];
    ChainMoves(mem, v - 1, mem1, v - 1, Slots(t, 0), false, DirectEnd(b, t));
    ChainRetarget(mem1, v - 1, Slots(t, 0), false, DirectEnd(b, t), Ehd(off - 1, INFIX_TAG));
  }

  /** The first slot that points to an infix position: its list comes before the others, and the list of
      the block now ends with the place of this one. */
  lemma ThreadNewInfix(mem: Memory, v: Addr, b: Block, t: Thread, off: nat, p: Addr)
    requires v > 0 && FreshInfix(mem, v, b, t, off, p)
    ensures Last(v - 1, Slots(t, 0)) in mem && mem[Last(v - 1, Slots(t, 0))] == DirectEnd(b, t)
    ensures Threaded(WithNewInfix(mem, v, t, off, p), v, b, Pushed(t, off, p).(order := [off] + t.order))
  {
    NewInfixDirect(mem, v, b, t, off, p);
    EndOfDirect(mem, v, b, t);
    var mem', t' := WithNewInfix(mem, v, t, off, p), Pushed(t, off, p).(order := [off] + t.order);
    assert ([off] + t.order)[1..] == t.order;
    NewInfixRest(mem, v, b, t, off, p);
    assert Slots(t', off) == [p];
  }

  lemma NewInfixRest(mem: Memory, v: Addr, b: Block, t: Thread, off: nat, p: Addr)
    requires v > 0 && FreshInfix(mem, v, b, t, off, p)
    requires var c := Last(v - 1, Slots(t, 0)); c in mem && mem[c].Ehd? && (c == v - 1 || c in Slots(t, 0))
    ensures InfixChains(WithNewInfix(mem, v, t, off, p), v, t.order, Pushed(t, off, p).(order := [off] + t.order), Ehd(b.size, b.tag))
  {
    var mem', t' := WithNewInfix(mem, v, t, off, p), Pushed(t, off, p).(order := [off] + t.order);
    InfixChainsFrame(mem, mem', v, t.order, t, t', Ehd(b.size, b.tag));
  }

  lemma LastInside(at: Addr, slots: seq<Addr>)
    ensures Last(at, slots) == at || Last(at, slots) in slots
  {
  }
}
