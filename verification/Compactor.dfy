// The passes of do_compaction (compact.c) over the words of the heap.

module Compactor {
  import opened Basics
  import opened Threading
  import opened Inversion
  import opened HeapChunks
  import opened Placement
  import opened Reversion
  import opened Relocation
  import A = CompactAlloc

  class Compactor {
    const layout: Layout
    ghost var orig: Memory
    var mem: Memory
    ghost var th: Threads
    ghost var done: set<Addr>

    ghost predicate Inverting()
      reads this
    {
      Inv(mem, layout, orig, th, done)
    }

    constructor (l: Layout, m: Memory)
      ensures layout == l && mem == m
    {
      layout, mem := l, m;
    }

    // -------------------------------------------------------------- first pass

    /** The headers of one chunk, from Make_header to Make_ehd. */
    method EncodeChunk(c: A.Chunk, ghost m: Memory, ghost cs: seq<A.Chunk>)
      requires GoodLayout(layout) && Raw(layout, m) && HeapOk(layout, m, cs) && ChunkOk(layout, c)
               && mem == Encoded(layout, m, c.start)
      modifies this`mem
      ensures mem == Encoded(layout, m, End(c))
    {
      var p := c.start;
      while p < End(c)
        invariant c.start <= p <= End(c) && (p < End(c) ==> p + 1 in layout.blocks) && mem == Encoded(layout, m, p)
        decreases End(c) - p
      {
        assert RawAt(layout, m, p + 1);
        NextBlock(layout, c, p + 1);
        var hd := mem[p];
        EncodedNext(layout, m, cs, p);
        mem := mem[p := if hd.blue then Ehd(hd.hsize, STRING_TAG) else Ehd(hd.hsize, hd.htag)];
        p := p + (hd.hsize + 1);
      }
    }

    /** The first pass: all headers but those of infix positions. */
    method EncodeHeaders(cs: seq<A.Chunk>)
      requires GoodLayout(layout) && Raw(layout, mem) && HeapOk(layout, mem, cs)
      modifies this
      ensures Inverting() && done == {} && mem == orig == Encoded(layout, old(mem), End(cs[|cs| - 1]))
    {
      ghost var m := mem;
      EncodedGap(layout, m, cs, 0);
      var i := 0;
      while i < |cs|
        invariant 0 <= i <= |cs| && mem == Encoded(layout, m, if i == 0 then 0 else End(cs[i - 1]))
      {
        EncodedGap(layout, m, cs, i);
        assert ChunkOk(layout, cs[i]);
        EncodeChunk(cs[i], m, cs);
        i := i + 1;
      }
      orig, done, th := mem, {}, map v | v in layout.blocks :: Thread([], map[]);
      BlocksBelow(layout, m, cs);
      EncodedIsSource(layout, m, End(cs[|cs| - 1]));
      forall v | v in layout.blocks ensures BlockInv(mem, layout, mem, th, {}, v) {
        assert BlockOk(layout, v) && SourceAt(layout, mem, v);
      }
    }

    // -------------------------------------------------------------- second pass

    /** while (Ecolor (*hp) == 0) hp = (word *) *hp; */
    method FollowPointers(at: Addr, ghost slots: seq<Addr>, ghost end: Word) returns (hp: Addr)
      requires Chain(mem, at, slots, false, end) && end.Ehd?
      ensures hp == Last(at, slots) && hp in mem && mem[hp] == end
    {
      hp := at;
      ghost var rest := slots;
      while mem[hp].Ptr?
        invariant Chain(mem, hp, rest, false, end) && Last(hp, rest) == Last(at, slots)
        decreases |rest|
      {
        hp := mem[hp].a;
        rest := rest[1..];
      }
    }

    /** invert_pointer_at: every slot is inverted once; infix headers are passed over. */
    method InvertPointerAt(p: Addr)
      requires Inverting() && p in orig && !IsHeader(layout, p) && p !in done
      modifies this`mem, this`th, this`done
      ensures Inverting() && done == old(done) + if IsInfixHeader(layout, p) then {} else {p}
    {
      WordAt(mem, layout, orig, th, done, p);
      var q := mem[p];
      if q.Ptr? && q.a in layout.base.Keys {
        InvertAt(p, q.a);
      } else if !IsInfixHeader(layout, p) {
        SkipSlot(mem, layout, orig, th, done, p);
        done := done + {p};
      }
    }

    method InvertAt(p: Addr, q: Addr)
      requires Inverting() && p in orig && !IsHeader(layout, p) && !IsInfixHeader(layout, p) && p !in done
      requires Points(layout, orig, p) && orig[p].a == q
      modifies this`mem, this`th, this`done
      ensures Inverting() && done == old(done) + {p}
    {
      ghost var v := layout.base[q];
      OwnerOfSlot(layout, orig, p);
      HeaderWord(mem, layout, orig, th, done, v);
      if q != v {
        InfixWord(mem, layout, orig, th, done, v, q - v);
      }
      match mem[q - 1] {
        case Ptr(_) => InvertHeader(p, q);
        case Ehd(_, _) => InvertHeader(p, q);
        case InvInfix(_) =>
          InvertInfix(mem, layout, orig, th, done, v, q - v, p);
          mem := mem[p := mem[q - 1]][q - 1 := InvInfix(p)];
          th, done := th[v := Pushed(th[v], q - v, p)], done + {p};
        case InfixHd(ofs) => InvertFirstInfix(p, q, ofs);
      }
    }

    /** Case 0 or 3: the slot is threaded from the header of its block. */
    method InvertHeader(p: Addr, q: Addr)
      requires Inverting() && q in layout.blocks && Points(layout, orig, p) && orig[p].a == q
      requires !IsHeader(layout, p) && !IsInfixHeader(layout, p) && p !in done
      modifies this`mem, this`th, this`done
      ensures Inverting() && done == old(done) + {p}
    {
      InvertDirect(mem, layout, orig, th, done, q, p);
      mem := mem[p := mem[q - 1]][q - 1 := Ptr(p)];
      th, done := th[q := Pushed(th[q], 0, p)], done + {p};
    }

    /** Case 1: the first slot that points to this infix position. */
    method InvertFirstInfix(p: Addr, q: Addr, ofs: nat)
      requires Inverting() && Points(layout, orig, p) && orig[p].a == q && !IsHeader(layout, p)
               && !IsInfixHeader(layout, p) && p !in done
      requires ofs > 0 && ofs < q && q - ofs in layout.blocks && layout.base[q] == q - ofs
               && ofs in layout.blocks[q - ofs].infix
      requires q - ofs in th && ofs !in th[q - ofs].order
      modifies this`mem, this`th, this`done
      ensures Inverting() && done == old(done) + {p}
    {
      var val := q - ofs;
      ghost var t, b := th[val], layout.blocks[val];
      InvertNewInfix(mem, layout, orig, th, done, val, ofs, p);
      HeaderWord(mem, layout, orig, th, done, val);
      var hp := FollowPointers(val - 1, Slots(t, 0), DirectEnd(b, t));
      var hd := mem[hp];
      if hd.tag == CLOSURE_TAG {
        mem := mem[p := hd];
        mem := mem[q - 1 := InvInfix(p)];
        mem := mem[hp := Ehd(q - val - 1, INFIX_TAG)];
      } else {
        mem := mem[p := NextInfix(val + hd.size)];
        mem := mem[q - 1 := InvInfix(p)];
        mem := mem[hp := Ehd(q - val - 1, INFIX_TAG)];
      }
      th, done := th[val := Pushed(t, ofs, p).(order := [ofs] + t.order)], done + {p};
    }

    /** The size and tag of a block whose header may be threaded: to the end of its list, and if that has
        an infix tag through all infix lists to the original header; `infixes` is 0 if there are none. */
    method HeaderOf(v: Addr) returns (hd: Word, infixes: Addr)
      requires v in layout.blocks && BlockOk(layout, v) && BlockInv(mem, layout, orig, th, done, v)
      ensures hd == Ehd(layout.blocks[v].size, layout.blocks[v].tag)
      ensures infixes == if th[v].order == [] then 0 else v - 1 + th[v].order[0]
    {
      ghost var t, b := th[v], layout.blocks[v];
      var hp := FollowPointers(v - 1, Slots(t, 0), DirectEnd(b, t));
      hd := mem[hp];
      infixes := 0;
      if hd.tag == INFIX_TAG {
        infixes := v - 1 + (hd.size + 1);
        hd := FollowInfixes(v, infixes, t, Ehd(b.size, b.tag));
      }
    }

    /** while (Ecolor (q) != 3) q = * (word *) (q & ~3); */
    method FollowInfixes(v: Addr, infixes: Addr, ghost t: Thread, ghost hd: Word) returns (q: Word)
      requires v > 0 && t.order != [] && t.order[0] >= 2 && InfixChains(mem, v, t.order, t, hd) && hd.Ehd?
      requires infixes == InfixAt(v, t.order[0])
      ensures q == hd
    {
      ghost var cell, slots, order := infixes, Slots(t, t.order[0]), t.order[1..];
      q := mem[infixes];
      while !q.Ehd?
        invariant cell in mem && q == mem[cell]
        invariant Chain(mem, cell, slots, true, if order == [] then hd else NextInfix(InfixAt(v, order[0])))
        invariant InfixChains(mem, v, order, t, hd)
        decreases |order|, |slots|
      {
        if slots != [] {
          cell, slots := slots[0], slots[1..];
        } else {
          cell, slots, order := InfixAt(v, order[0]), Slots(t, order[0]), order[1..];
        }
        q := mem[match q case InvInfix(a) => a case NextInfix(a) => a case _ => 0];
      }
    }

    /** The fields of one block. */
    method InvertFields(v: Addr, size: nat, ghost cs: seq<A.Chunk>, ghost roots: set<Addr>)
      requires Inverting() && HeapOk(layout, orig, cs) && RootsOk(layout, orig, roots)
      requires v in layout.blocks && size == layout.blocks[v].size && layout.blocks[v].tag < NO_SCAN_TAG
      requires DoneUpTo(layout, roots, done, v)
      modifies this`mem, this`th, this`done
      ensures Inverting() && DoneUpTo(layout, roots, done, v + size)
    {
      WordsOfBlock(layout, orig, cs, v);
      var i := 0;
      while i < size
        invariant 0 <= i <= size && Inverting() && DoneUpTo(layout, roots, done, v + i)
      {
        assert v + i in orig && !IsHeader(layout, v + i) && v + i !in roots;
        InvertPointerAt(v + i);
        i := i + 1;
      }
    }

    /** The blocks of one chunk. */
    method InvertChunk(c: A.Chunk, ghost cs: seq<A.Chunk>, ghost roots: set<Addr>)
      requires Inverting() && HeapOk(layout, orig, cs) && RootsOk(layout, orig, roots) && ChunkOk(layout, c)
      requires DoneUpTo(layout, roots, done, c.start)
      modifies this`mem, this`th, this`done
      ensures Inverting() && DoneUpTo(layout, roots, done, c.start + c.size)
    {
      var p := c.start;
      while p < c.start + c.size
        invariant c.start <= p <= c.start + c.size && (p < c.start + c.size ==> p + 1 in layout.blocks)
        invariant Inverting() && DoneUpTo(layout, roots, done, p)
        decreases c.start + c.size - p
      {
        HeaderWord(mem, layout, orig, th, done, p + 1);
        var hd, infixes := HeaderOf(p + 1);
        assert Next(layout, p + 1, c.start + c.size);
        HeaderIsNoField(layout, p + 1);
        if hd.tag < NO_SCAN_TAG {
          InvertFields(p + 1, hd.size, cs, roots);
        } else {
          WordsOfBlock(layout, orig, cs, p + 1);
        }
        p := p + (hd.size + 1);
      }
    }

    /** The second pass: the roots, then every slot of the heap. */
    method InvertPointers(cs: seq<A.Chunk>, roots: seq<Addr>)
      requires Inverting() && done == {} && HeapOk(layout, orig, cs) && RootsOk(layout, orig, RootSet(roots))
      requires forall i, j :: 0 <= i < j < |roots| ==> roots[i] != roots[j]
      modifies this`mem, this`th, this`done
      ensures Inverting() && forall a: Addr :: a in done <==> a in roots || IsField(layout, a)
    {
      ghost var rs := RootSet(roots);
      var i := 0;
      while i < |roots|
        invariant 0 <= i <= |roots| && Inverting() && done == RootSet(roots[..i])
      {
        assert roots[i] in rs;
        InvertPointerAt(roots[i]);
        assert roots[..i + 1] == roots[..i] + [roots[i]];
        i := i + 1;
      }
      assert roots[..i] == roots;
      NoFieldOutside(layout, orig, cs, 0, 0);
      i := 0;
      while i < |cs|
        invariant 0 <= i <= |cs| && Inverting() && DoneUpTo(layout, rs, done, if i == 0 then 0 else cs[i - 1].start + cs[i - 1].size)
      {
        NoFieldOutside(layout, orig, cs, i, if i == 0 then 0 else cs[i - 1].start + cs[i - 1].size);
        assert ChunkOk(layout, cs[i]);
        InvertChunk(cs[i], cs, rs);
        i := i + 1;
      }
      NoFieldBeyond(layout, orig, cs);
    }

    // -------------------------------------------------------------- third pass

    /** The list from `at`: its slots get the word `w`; returns what it ends with. */
    method RevertList(at: Addr, infix: bool, w: Word, ghost slots: seq<Addr>, ghost end: Word) returns (q: Word)
      requires Chain(mem, at, slots, infix, end) && Distinct(slots) && !(if infix then end.InvInfix? else end.Ptr?)
      modifies this`mem
      ensures Unwound(old(mem), mem, slots, w) && q == end && forall a :: a in slots ==> a in mem
    {
      ghost var before := mem;
      ghost var k, cell := 0, at;
      q := mem[at];
      while if infix then q.InvInfix? else q.Ptr?
        invariant 0 <= k <= |slots| && cell in before && q == before[cell] && Unwound(before, mem, slots[..k], w)
        invariant Chain(before, cell, slots[k..], infix, end) && forall a :: a in slots[..k] ==> a in mem
        decreases |slots| - k
      {
        var a := if infix then q.p else q.a;
        assert slots[k..][0] == slots[k] && slots[k..][1..] == slots[k + 1..] && slots[..k + 1] == slots[..k] + [slots[k]];
        assert a == slots[k];
        var next := mem[a];
        mem := mem[a := w];
        q := next;
        cell, k := a, k + 1;
      }
      assert slots[..k] == slots;
    }

    /** One infix list, and its header. */
    method RevertInfixList(v: Addr, infixes: Addr, nv: Addr, ghost before: Memory, ghost b: Block, ghost t: Thread,
        ghost k: nat) returns (q: Word)
      requires v > 0 && Lists(v, t) && k < |t.order| && infixes == v - 1 + t.order[k]
      requires InfixChains(before, v, t.order, t, Ehd(b.size, b.tag)) && Part(before, mem, v, b, t, nv, t.order[..k])
      modifies this`mem
      ensures Part(before, mem, v, b, t, nv, t.order[..k + 1])
      ensures q == if k + 1 == |t.order| then Ehd(b.size, b.tag) else NextInfix(v - 1 + t.order[k + 1])
    {
      ghost var mem0, off := mem, t.order[k];
      ghost var end := NextInfixList(before, mem, v, b, t, nv, k);
      q := RevertList(infixes, true, Ptr(nv + (infixes - (v - 1))), Slots(t, off), end);
      ListUnwound(before, mem0, mem, v, b, t, nv, k);
      mem := mem[infixes := InfixHd(infixes - (v - 1))];
    }

    /** The infix lists of a block that goes to `nv`: their slots and the infix headers. */
    method RevertInfixes(v: Addr, first: Addr, nv: Addr, ghost before: Memory, ghost b: Block, ghost t: Thread)
      requires v > 0 && Lists(v, t) && t.order != [] && first == v - 1 + t.order[0]
      requires InfixChains(before, v, t.order, t, Ehd(b.size, b.tag)) && Part(before, mem, v, b, t, nv, [])
      modifies this`mem
      ensures Part(before, mem, v, b, t, nv, t.order)
    {
      var infixes, more := first, true;
      ghost var k := 0;
      while more
        invariant 0 <= k <= |t.order| && Part(before, mem, v, b, t, nv, t.order[..k])
        invariant more <==> k < |t.order|
        invariant more ==> infixes == v - 1 + t.order[k]
        decreases |t.order| - k
      {
        var q := RevertInfixList(v, infixes, nv, before, b, t, k);
        k := k + 1;
        match q
        case NextInfix(h) => infixes := h;
        case Ehd(_, _) => more := false;
      }
      assert t.order[..k] == t.order;
    }

    /** A block with pointers to it: it gets its new address, and all slots that point to it get that. */
    method RevertLive(v: Addr, nv: Addr, hd: Word, infixes: Addr, ghost plan: map<Addr, Addr>)
      requires v in layout.blocks && ThreadsAt(layout, orig, th, done, v) && BlockInv(mem, layout, orig, th, done, v)
      requires v in plan && plan[v] == nv && IsLive(th[v])
      requires hd == Ehd(layout.blocks[v].size, layout.blocks[v].tag)
               && infixes == if th[v].order == [] then 0 else v - 1 + th[v].order[0]
      modifies this`mem
      ensures Settled(mem, layout, th, plan, v) && ChangesOwned(old(mem), mem, layout, orig, done, v)
    {
      ghost var before, t, b := mem, th[v], layout.blocks[v];
      var q := RevertList(v - 1, false, Ptr(nv), Slots(t, 0), DirectEnd(b, t));
      PartBegins(before, mem, v, b, t, nv);
      mem := mem[v - 1 := Hd(hd.size, hd.tag, false)];
      if infixes != 0 {
        RevertInfixes(v, infixes, nv, before, b, t);
      }
      assert t.order == [] ==> t.order == [];
      LiveSettled(before, mem, layout, orig, th, done, plan, v);
    }

    /** One block of the third pass. */
    method RevertBlock(p: Addr, a: A.Allocator, ghost plan: map<Addr, Addr>, ghost c: nat) returns (size: nat)
      requires Reverting(mem, layout, orig, th, done, plan, p) && HeapOk(layout, orig, a.chunks)
      requires Passing(layout, a.chunks, Live(layout, th), plan, c, p, a.S()) && p < End(a.chunks[c])
      requires forall v: Addr :: v in plan <==> v in Live(layout, th) && v in layout.blocks
      modifies this`mem, a
      ensures size == layout.blocks[p + 1].size
      ensures Passing(layout, a.chunks, Live(layout, th), plan, c, p + 1 + size, a.S())
      ensures Reverting(mem, layout, orig, th, done, plan, p + 1 + size)
    {
      var v := p + 1;
      ghost var before, s := mem, a.S();
      BlockReached(mem, layout, orig, th, done, plan, p, v);
      ghost var s' := PassBlock(layout, orig, a.chunks, Live(layout, th), plan, c, p, s);
      NextPosition(layout, orig, a.chunks, c, p);
      var q := mem[p];
      if q.Ptr? || q.tag == INFIX_TAG {
        var hd, infixes := HeaderOf(v);
        size := hd.size;
        var newadr := a.CompactAllocate(size + 1);
        RevertLive(v, newadr + 1, hd, infixes, plan);
      } else {
        DeadSettled(mem, layout, orig, th, done, plan, v);
        mem := mem[p := Hd(q.size, q.tag, true)];
        size := q.size;
      }
      RevertStep(before, mem, layout, orig, th, done, plan, p, v, p + 1 + size);
    }

    /** The third pass: virtual reallocation; pointers reverted, headers decoded. */
    method RevertPointers(a: A.Allocator, ghost plan: map<Addr, Addr>)
      requires Inverting() && HeapOk(layout, orig, a.chunks) && |a.alloc| == |a.chunks|
      requires Plan(layout, a.chunks, Live(layout, th), 0, a.chunks[0].start, A.Init(a.chunks)) == Some(plan)
      modifies this`mem, a
      ensures |a.alloc| == |a.chunks| && Reverting(mem, layout, orig, th, done, plan, End(a.chunks[|a.chunks| - 1]))
    {
      a.Reset();
      ghost var live := Live(layout, th);
      PassBegins(layout, orig, a.chunks, live);
      InversionEnds(mem, layout, orig, th, done, plan);
      FirstChunk(layout, orig, a.chunks);
      NoBlockBetween(mem, layout, orig, th, done, plan, 0, a.chunks[0].start);
      var c := 0;
      while c < |a.chunks|
        invariant 0 <= c <= |a.chunks| && |a.alloc| == |a.chunks|
        invariant c < |a.chunks| ==> Passing(layout, a.chunks, live, plan, c, a.chunks[c].start, a.S())
        invariant Reverting(mem, layout, orig, th, done, plan, if c < |a.chunks| then a.chunks[c].start else End(a.chunks[|a.chunks| - 1]))
      {
        RevertChunk(a, plan, c);
        if c + 1 < |a.chunks| {
          PassChunk(layout, orig, a.chunks, live, plan, c, a.S());
          NoBlockBetween(mem, layout, orig, th, done, plan, End(a.chunks[c]), a.chunks[c + 1].start);
        }
        c := c + 1;
      }
    }

    method RevertChunk(a: A.Allocator, ghost plan: map<Addr, Addr>, c: nat)
      requires c < |a.chunks| && Reverting(mem, layout, orig, th, done, plan, a.chunks[c].start)
               && HeapOk(layout, orig, a.chunks)
      requires Passing(layout, a.chunks, Live(layout, th), plan, c, a.chunks[c].start, a.S())
      requires forall v: Addr :: v in plan <==> v in Live(layout, th) && v in layout.blocks
      modifies this`mem, a
      ensures Reverting(mem, layout, orig, th, done, plan, End(a.chunks[c]))
      ensures Passing(layout, a.chunks, Live(layout, th), plan, c, End(a.chunks[c]), a.S())
    {
      var p := a.chunks[c].start;
      while p < End(a.chunks[c])
        invariant p <= End(a.chunks[c]) && Reverting(mem, layout, orig, th, done, plan, p)
        invariant Passing(layout, a.chunks, Live(layout, th), plan, c, p, a.S())
        decreases End(a.chunks[c]) - p
      {
        var size := RevertBlock(p, a, plan, c);
        p := p + (size + 1);
      }
    }

    // -------------------------------------------------------------- fourth pass

    /** One block of the fourth pass: a white block is allocated and moved, a blue one skipped. */
    method MoveBlock(p: Addr, a: A.Allocator) returns (size: nat)
      requires p in mem && mem[p].Hd? && forall k :: p <= k < p + 1 + mem[p].hsize ==> k in mem
      requires |a.alloc| == |a.chunks| && a.fl < |a.chunks|
      requires !mem[p].blue ==> A.Allocate(a.chunks, a.S(), mem[p].hsize + 1).At?
      modifies this`mem, a
      ensures size == old(mem)[p].hsize
      ensures if old(mem)[p].blue then mem == old(mem) && a.S() == old(a.S())
              else var r := A.Allocate(a.chunks, old(a.S()), size + 1); r.At? && r == A.At(r.adr, a.S()) && mem == Memmove(old(mem), r.adr, p, size + 1)
    {
      var q := mem[p];
      size := q.hsize;
      if !q.blue {
        var newadr := a.CompactAllocate(size + 1);
        mem := Memmove(mem, newadr, p, size + 1);
      }
    }

    method MoveChunk(a: A.Allocator, ghost mid: Memory, ghost plan: map<Addr, Addr>, c: nat, ghost live: set<Addr>)
      requires c < |a.chunks| && Pass4(mid, mem, layout, a.chunks, live, plan, c, a.chunks[c].start, a.S())
      modifies this`mem, a
      ensures Pass4(mid, mem, layout, a.chunks, live, plan, c, End(a.chunks[c]), a.S())
    {
      var p := a.chunks[c].start;
      while p < End(a.chunks[c])
        invariant p <= End(a.chunks[c]) && Pass4(mid, mem, layout, a.chunks, live, plan, c, p, a.S())
        decreases End(a.chunks[c]) - p
      {
        ghost var mem0, s := mem, a.S();
        NextToMove(mid, mem, layout, a.chunks, live, plan, c, p, s);
        var size := MoveBlock(p, a);
        ghost var last := p;
        p := p + (size + 1);
        HasMoved(mid, mem0, mem, layout, a.chunks, live, plan, c, last, s, a.S(), size, p);
      }
    }

    /** The fourth pass: the same allocations again, and the blocks are moved. */
    method MoveBlocks(a: A.Allocator, ghost plan: map<Addr, Addr>, ghost live: set<Addr>)
      requires Decoded(mem, layout, plan) && HeapOk(layout, mem, a.chunks) && Mapped(a.chunks, mem)
               && |a.alloc| == |a.chunks|
      requires Plan(layout, a.chunks, live, 0, a.chunks[0].start, A.Init(a.chunks)) == Some(plan)
      modifies this`mem, a
      ensures Moving(old(mem), mem, layout, a.chunks, plan, End(a.chunks[|a.chunks| - 1]), a.S())
    {
      ghost var mid, last := mem, End(a.chunks[|a.chunks| - 1]);
      a.Reset();
      PassBegins(layout, mid, a.chunks, live);
      FirstChunk(layout, mid, a.chunks);
      var c := 0;
      while c < |a.chunks|
        invariant 0 <= c <= |a.chunks| && |a.alloc| == |a.chunks|
        invariant c < |a.chunks| ==> Passing(layout, a.chunks, live, plan, c, a.chunks[c].start, a.S())
        invariant Moving(mid, mem, layout, a.chunks, plan, if c < |a.chunks| then a.chunks[c].start else last, a.S())
      {
        ChunksInOrder(a.chunks, c);
        MoveChunk(a, mid, plan, c, live);
        if c + 1 < |a.chunks| {
          PassChunk(layout, mid, a.chunks, live, plan, c, a.S());
          SkipStep(mid, mem, layout, a.chunks, plan, End(a.chunks[c]), a.chunks[c + 1].start, a.S());
        }
        c := c + 1;
      }
    }

    // -------------------------------------------------------------- do_compaction

    /** Where compact_allocate never looks beyond the last chunk, compaction keeps the blocks that slots
        point to, moves them apart from each other, and redirects every slot. */
    method DoCompaction(a: A.Allocator, roots: seq<Addr>)
      requires GoodLayout(layout) && Raw(layout, mem) && HeapOk(layout, mem, a.chunks) && Mapped(a.chunks, mem)
               && |a.alloc| == |a.chunks|
      requires RootsApart(layout, a.chunks, mem, RootSet(roots))
               && forall i, j :: 0 <= i < j < |roots| ==> roots[i] != roots[j]
      requires Plan(layout, a.chunks, Survivors(layout, mem, RootSet(roots)), 0, a.chunks[0].start, A.Init(a.chunks)).Some?
      modifies this, a
      ensures Compacted(layout, a.chunks, RootSet(roots), old(mem), mem, Plan(layout, a.chunks, Survivors(layout, old(mem), RootSet(roots)), 0, a.chunks[0].start, A.Init(a.chunks)).value)
    {
      ghost var m, rs, last := mem, RootSet(roots), End(a.chunks[|a.chunks| - 1]);
      ghost var plan := Plan(layout, a.chunks, Survivors(layout, m, rs), 0, a.chunks[0].start, A.Init(a.chunks)).value;
      EncodeHeaders(a.chunks);
      HeapOkEncoded(layout, m, a.chunks, rs, last);
      InvertPointers(a.chunks, roots);
      LiveAreSurvivors(mem, layout, m, last, th, done, rs);
      PassBegins(layout, orig, a.chunks, Live(layout, th));
      RevertPointers(a, plan);
      ghost var mid := mem;
      BlocksBelow(layout, m, a.chunks);
      HeapOkLater(mem, layout, orig, th, done, plan, last, a.chunks);
      MoveBlocks(a, plan, Live(layout, th));
      CompactionDone(layout, a.chunks, rs, orig, mid, mem, th, done, plan, last, a.chunks[0].start, a.S(),
          A.Init(a.chunks));
      CompactedFromRaw(layout, a.chunks, rs, m, last, mem, plan);
    }
  }

  // ---------------------------------------------------------------- lemmas of the passes

  lemma EncodedNext(l: Layout, m: Memory, cs: seq<A.Chunk>, p: Addr)
    requires GoodLayout(l) && HeapOk(l, m, cs) && p + 1 in l.blocks
    ensures p in m && Encoded(l, m, p)[p] == m[p]
    ensures Encoded(l, m, p + 1 + l.blocks[p + 1].size) == Encoded(l, m, p)[p := Ehd(l.blocks[p + 1].size, l.blocks[p + 1].tag)]
  {
    assert InHeap(l, m, p + 1);
    WordsOfBlock(l, m, cs, p + 1);
  }

  lemma EncodedGap(l: Layout, m: Memory, cs: seq<A.Chunk>, i: nat)
    requires GoodLayout(l) && HeapOk(l, m, cs) && i < |cs|
    ensures Encoded(l, m, 0) == m
    ensures Encoded(l, m, if i == 0 then 0 else End(cs[i - 1])) == Encoded(l, m, cs[i].start)
  {
    if i == 0 { FirstChunk(l, m, cs); } else { NextChunk(l, m, cs, i - 1); }
  }

  lemma FirstChunk(l: Layout, m: Memory, cs: seq<A.Chunk>)
    requires HeapOk(l, m, cs)
    ensures forall v: Addr :: v in l.blocks ==> cs[0].start < v
  {
    forall v: Addr | v in l.blocks ensures cs[0].start < v {
      assert Housed(cs, v);
      var i :| Within(cs, v, i);
      ChunksInOrder(cs, 0);
    }
  }

  lemma BlocksBelow(l: Layout, m: Memory, cs: seq<A.Chunk>)
    requires HeapOk(l, m, cs)
    ensures forall v: Addr :: v in l.blocks ==> v <= End(cs[|cs| - 1])
  {
    forall v: Addr | v in l.blocks ensures v <= End(cs[|cs| - 1]) {
      assert Housed(cs, v);
      var i :| Within(cs, v, i);
      ChunksInOrder(cs, |cs| - 1);
    }
  }

  lemma HeapOkEncoded(l: Layout, m: Memory, cs: seq<A.Chunk>, roots: set<Addr>, e: Addr)
    requires GoodLayout(l) && HeapOk(l, m, cs) && RootsApart(l, cs, m, roots) && Mapped(cs, m)
    ensures var o := Encoded(l, m, e); HeapOk(l, o, cs) && RootsApart(l, cs, o, roots) && Mapped(cs, o) && RootsOk(l, o, roots)
  {
    var o := Encoded(l, m, e);
    forall v | v in l.blocks ensures InHeap(l, o, v) { assert InHeap(l, m, v); }
    RootsApartOk(l, o, cs, roots);
  }

  /** The next infix list is as it was before the block was touched. */
  lemma NextInfixList(before: Memory, mem: Memory, v: Addr, b: Block, t: Thread, nv: Addr, k: nat) returns (end: Word)
    requires v > 0 && Lists(v, t) && k < |t.order| && Part(before, mem, v, b, t, nv, t.order[..k])
    requires InfixChains(before, v, t.order, t, Ehd(b.size, b.tag))
    ensures var off := t.order[k]; off >= 2 && off in t.order && off !in t.order[..k] && Distinct(Slots(t, off))
    ensures Chain(mem, v - 1 + t.order[k], Slots(t, t.order[k]), true, end)
    ensures end == (if k + 1 == |t.order| then Ehd(b.size, b.tag) else NextInfix(v - 1 + t.order[k + 1]))
            && !end.InvInfix?
  {
    LaterInfixChains(before, v, t.order, t, Ehd(b.size, b.tag), k);
    PartKeepsRest(before, mem, v, b, t, nv, k, Ehd(b.size, b.tag));
    assert t.order[k] in t.order;
    end := if k + 1 == |t.order| then Ehd(b.size, b.tag) else NextInfix(v - 1 + t.order[k + 1]);
  }

  lemma ListUnwound(before: Memory, mem: Memory, mem1: Memory, v: Addr, b: Block, t: Thread, nv: Addr, k: nat)
    requires v > 0 && Lists(v, t) && k < |t.order| && Part(before, mem, v, b, t, nv, t.order[..k])
    requires var off := t.order[k]; off >= 2 && off !in t.order[..k] && v - 1 + off in mem && Unwound(mem, mem1, Slots(t, off), Ptr(nv + off))
    requires forall a :: a in Slots(t, t.order[k]) ==> a in mem1
    ensures Part(before, mem1[v - 1 + t.order[k] := InfixHd(t.order[k])], v, b, t, nv, t.order[..k + 1])
  {
    assert t.order[..k + 1] == t.order[..k] + [t.order[k]];
    PartGoesOn(before, mem, mem1, v, b, t, nv, t.order[..k], t.order[k]);
  }

  lemma HeapOkLater(mid: Memory, l: Layout, orig: Memory, th: Threads, done: set<Addr>, plan: map<Addr, Addr>,
      k: Addr, cs: seq<A.Chunk>)
    requires Reverting(mid, l, orig, th, done, plan, k) && (forall v :: v in l.blocks ==> v <= k)
             && HeapOk(l, orig, cs) && Mapped(cs, orig)
    ensures Decoded(mid, l, plan) && HeapOk(l, mid, cs) && Mapped(cs, mid)
  {
    RevertedIsDecoded(mid, l, orig, th, done, plan, k);
    forall v | v in l.blocks ensures InHeap(l, mid, v) { assert InHeap(l, orig, v); }
  }

  lemma BlockReached(mem: Memory, l: Layout, orig: Memory, th: Threads, done: set<Addr>, plan: map<Addr, Addr>,
      p: Addr, v: Addr)
    requires Reverting(mem, l, orig, th, done, plan, p) && v in l.blocks && p < v
    ensures ThreadsAt(l, orig, th, done, v) && BlockOk(l, v) && BlockInv(mem, l, orig, th, done, v)
    ensures v - 1 in mem && (mem[v - 1].Ptr? || mem[v - 1].Ehd?)
            && (IsLive(th[v]) <==> mem[v - 1].Ptr? || mem[v - 1].tag == INFIX_TAG)
  {
    assert ThreadsAt(l, orig, th, done, v) && StateOf(mem, l, orig, th, done, plan, p, v) && BlockOk(l, v);
    HeaderTells(mem, l, orig, th, done, v);
  }

  /** The state of pass 4 at word `p`. */
  ghost predicate Pass4(mid: Memory, mem: Memory, l: Layout, cs: seq<A.Chunk>, live: set<Addr>, plan: map<Addr, Addr>,
      c: nat, p: Addr, s: A.State) {
    && Decoded(mid, l, plan) && HeapOk(l, mid, cs) && Mapped(cs, mid) && Moving(mid, mem, l, cs, plan, p, s)
    && Passing(l, cs, live, plan, c, p, s) && forall v: Addr :: v in plan <==> v in live && v in l.blocks
  }

  /** What pass 4 finds at a block. */
  lemma NextToMove(mid: Memory, mem: Memory, l: Layout, cs: seq<A.Chunk>, live: set<Addr>, plan: map<Addr, Addr>,
      c: nat, p: Addr, s: A.State)
    requires Pass4(mid, mem, l, cs, live, plan, c, p, s) && p < End(cs[c])
    ensures p in mem && mem[p] == mid[p] && mem[p].Hd? && mem[p].hsize == l.blocks[p + 1].size
            && (mem[p].blue <==> p + 1 !in live)
    ensures forall a :: p <= a < p + 1 + mem[p].hsize ==> a in mem
    ensures !mem[p].blue ==> p + 1 in plan && plan[p + 1] > 0 && A.Allocate(cs, s, mem[p].hsize + 1).At? && A.Allocate(cs, s, mem[p].hsize + 1).adr == plan[p + 1] - 1
    ensures p + 1 + mem[p].hsize <= End(cs[c])
  {
    assert DecodedAt(mid, l, plan, p + 1) && InHeap(l, mid, p + 1);
    NextPosition(l, mid, cs, c, p);
    var s' := PassBlock(l, mid, cs, live, plan, c, p, s);
  }

  /** What MoveBlock leaves. */
  lemma HasMoved(mid: Memory, mem: Memory, mem': Memory, l: Layout, cs: seq<A.Chunk>, live: set<Addr>, plan: map<Addr,
      Addr>, c: nat, p: Addr, s: A.State, s1: A.State, size: nat, next: Addr)
    requires Pass4(mid, mem, l, cs, live, plan, c, p, s) && p < End(cs[c]) && p in mem && mem[p].Hd?
             && mem[p].hsize == size && next == p + 1 + size
    requires forall a :: p <= a < p + 1 + size ==> a in mem
    requires if mem[p].blue then mem' == mem && s1 == s
             else var r := A.Allocate(cs, s, size + 1); r.At? && r == A.At(r.adr, s1) && mem' == Memmove(mem, r.adr, p, size + 1)
    ensures Pass4(mid, mem', l, cs, live, plan, c, next, s1)
  {
    NextToMove(mid, mem, l, cs, live, plan, c, p, s);
    if p + 1 in live {
      NextPasses(mid, l, cs, live, plan, c, p, s, s1, size, next);
      WhiteMoved(mid, mem, mem', l, cs, live, plan, c, p, s, s1, size, next);
    } else {
      NextPasses(mid, l, cs, live, plan, c, p, s, s, size, next);
      BlueSkipped(mid, mem, l, cs, live, plan, c, p, s, size, next);
    }
  }

  lemma NextPasses(mid: Memory, l: Layout, cs: seq<A.Chunk>, live: set<Addr>, plan: map<Addr, Addr>, c: nat, p: Addr,
      s: A.State, s1: A.State, size: nat, next: Addr)
    requires GoodLayout(l) && HeapOk(l, mid, cs) && Passing(l, cs, live, plan, c, p, s) && p < End(cs[c])
    requires size == l.blocks[p + 1].size && next == p + 1 + size
    requires p + 1 !in live ==> s1 == s
    requires p + 1 in live ==> A.Allocate(cs, s, size + 1).At? && A.Allocate(cs, s, size + 1).s == s1
    ensures Passing(l, cs, live, plan, c, next, s1)
  {
    var s' := PassBlock(l, mid, cs, live, plan, c, p, s);
  }

  lemma BlueSkipped(mid: Memory, mem: Memory, l: Layout, cs: seq<A.Chunk>, live: set<Addr>, plan: map<Addr, Addr>,
      c: nat, p: Addr, s: A.State, size: nat, next: Addr)
    requires Pass4(mid, mem, l, cs, live, plan, c, p, s) && p < End(cs[c]) && p + 1 !in live
             && size == l.blocks[p + 1].size && next == p + 1 + size
    ensures Moving(mid, mem, l, cs, plan, next, s)
  {
    NextPosition(l, mid, cs, c, p);
    SkipStep(mid, mem, l, cs, plan, p, next, s);
  }

  lemma WhiteMoved(mid: Memory, mem: Memory, mem': Memory, l: Layout, cs: seq<A.Chunk>, live: set<Addr>,
      plan: map<Addr, Addr>, c: nat, p: Addr, s: A.State, s1: A.State, size: nat, next: Addr)
    requires Pass4(mid, mem, l, cs, live, plan, c, p, s) && p < End(cs[c]) && p + 1 in live
             && size == l.blocks[p + 1].size && next == p + 1 + size
    requires p + 1 in plan && plan[p + 1] > 0 && A.Allocate(cs, s, size + 1) == A.At(plan[p + 1] - 1, s1)
    requires forall a :: p <= a < p + 1 + size ==> a in mem
    requires mem' == Memmove(mem, plan[p + 1] - 1, p, size + 1)
    ensures Moving(mid, mem', l, cs, plan, next, s1)
  {
    NextPosition(l, mid, cs, c, p);
    PlaceIsFree(l, mid, cs, live, plan, c, p, s);
    MoveStep(mid, mem, l, cs, plan, p, s, s1, size);
  }

  /** Pass 4 finds the place of the next block free. */
  lemma PlaceIsFree(l: Layout, orig: Memory, cs: seq<A.Chunk>, live: set<Addr>, plan: map<Addr, Addr>, c: nat,
      p: Addr, s: A.State)
    requires GoodLayout(l) && HeapOk(l, orig, cs) && Passing(l, cs, live, plan, c, p, s) && p < End(cs[c])
             && p + 1 in live
    ensures p + 1 in plan && Behind(plan, p + 1)
    ensures var size := l.blocks[p + 1].size;
            && (forall a: Addr :: plan[p + 1] - 1 <= a < plan[p + 1] + size ==> !A.Used(cs, s, a) && InSomeChunk(cs, a))
            && var r := A.Allocate(cs, s, size + 1);
               r.At? && forall a: Addr :: A.Used(cs, r.s, a) <==> A.Used(cs, s, a) || plan[p + 1] - 1 <= a < plan[p + 1] + size
  {
    NextPosition(l, orig, cs, c, p);
    var s' := PassBlock(l, orig, cs, live, plan, c, p, s);
    PlanIsGood(l, orig, cs, live, c, p, s);
    var m := Plan(l, cs, live, c, p, s).value;
    assert Behind(m, p + 1);
    A.AllocatesBehind(cs, s, c, p, l.blocks[p + 1].size + 1);
    forall a: Addr | plan[p + 1] - 1 <= a < plan[p + 1] + l.blocks[p + 1].size ensures !A.Used(cs, s, a) && InSomeChunk(cs, a) {
      assert Dest(l, m, p + 1, a);
    }
  }
}
