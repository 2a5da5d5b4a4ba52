// Sweeping a chunk with the first-fit policy (major_gc.c and freelist.c): what the
// sweeper frees, and where free blocks touch afterwards.

module FirstFitSweep {
  import opened Basics
  import opened FlpIndex
  import opened FirstFit

  datatype Header = Header(size: nat, color: Color)

  type Headers = map<Addr, Header>

  ghost predicate Apart(hdr: Headers, a: Addr, b: Addr)
    requires a in hdr
  {
    a + hdr[a].size < b
  }

  ghost predicate HeadersOk(hdr: Headers) {
    forall a: Addr, b: Addr {:trigger Apart(hdr, a, b)} :: a in hdr && b in hdr && a < b ==> Apart(hdr, a, b)
  }

  /** From `hp` to `limit` blocks follow each other; the blue ones are the blocks of the list from block `m` on.
      Between two chunks there is at least one word. */
  ghost predicate Chunk(f: FreeList, m: nat, hdr: Headers, hp: Addr, limit: Addr)
    decreases limit - hp
  {
    && m <= |f.blocks| && hp <= limit && (m < |f.blocks| ==> f.blocks[m] > if hp == limit then limit + 1 else hp)
    && (hp < limit ==>
          && hp + 1 in hdr
          && var next := hp + 1 + hdr[hp + 1].size;
             && next <= limit
             && if hdr[hp + 1].color == Blue
                then m < |f.blocks| && f.blocks[m] == hp + 1 && Size(f, m) == hdr[hp + 1].size && Chunk(f, m + 1, hdr, next, limit)
                else Chunk(f, m, hdr, next, limit))
  }

  /** The sweeper is at `hp`, behind the first `m` blocks of the list; a fragment that ends here can be joined. */
  ghost predicate Ready(f: FreeList, merge: Addr, frag: Addr, hp: Addr, m: nat) {
    && m <= |f.blocks| && merge == Node(f, m) && (m > 0 ==> f.blocks[m - 1] + Size(f, m - 1) <= hp) && frag <= hp
    && (frag == hp ==> frag > 0 && frag != f.head && frag != f.head + 1 && (m > 0 ==> f.blocks[m - 1] + Size(f, m - 1) < frag))
  }

  /** Word `a` belongs to a dead block between `from` and `hp`. */
  ghost predicate DeadWord(hdr: Headers, from: Addr, hp: Addr, a: Addr) {
    exists b: Addr :: InHeader(hdr, b, a) && from < b <= hp && hdr[b].color == White
  }

  ghost predicate InHeader(hdr: Headers, b: Addr, a: Addr) {
    b in hdr && b <= a + 1 && a < b + hdr[b].size
  }

  /** Word `a` is a dead block of one word. */
  ghost predicate Fragment(hdr: Headers, a: Addr) {
    a + 1 in hdr && hdr[a + 1] == Header(0, White)
  }

  /** The free words after sweeping from `from` to `hp`: nothing is lost, every dead word is free or a fragment,
      and nothing else has become free, but for a fragment that ended at `from`. */
  ghost predicate WordsSwept(f: FreeList, g: FreeList, hdr: Headers, from: Addr, hp: Addr, frag: Addr) {
    forall a: Addr {:trigger Free(g, a)} {:trigger Free(f, a)} ::
      && (Free(f, a) ==> Free(g, a))
      && (DeadWord(hdr, from, hp, a) ==> Free(g, a) || Fragment(hdr, a))
      && (Free(g, a) ==> Free(f, a) || DeadWord(hdr, from, hp, a) || (frag == from && a + 1 == frag))
  }

  /** Where free blocks touch after sweeping: where they did before, and otherwise only where the two are too
      large for one. */
  ghost predicate SeamsSwept(f: FreeList, g: FreeList) {
    forall c: Addr {:trigger SeamAt(g, c)} {:trigger SeamAt(f, c)} ::
      && (SeamAt(f, c) ==> SeamAt(g, c)) && (SeamAt(f, c) && TooLarge(f, c, false) ==> TooLarge(g, c, false))
      && (SeamAt(g, c) ==> SeamAt(f, c) || TooLarge(g, c, false))
  }

  ghost predicate Swept(f: FreeList, g: FreeList, hdr: Headers, from: Addr, hp: Addr, frag: Addr, frag': Addr) {
    && WordsSwept(f, g, hdr, from, hp, frag) && SeamsSwept(f, g)
    && (frag' == hp ==> if hp == from then frag == from else hp in hdr && hdr[hp] == Header(0, White))
  }

  lemma SeamsFurther(f: FreeList, g: FreeList, g': FreeList, bp0: Addr)
    requires SeamsSwept(f, g) && SeamsAfter(g, g', bp0)
    ensures SeamsSwept(f, g')
  {
    forall c: Addr
      ensures (SeamAt(f, c) ==> SeamAt(g', c)) && (SeamAt(f, c) && TooLarge(f, c, false) ==> TooLarge(g', c, false))
      ensures SeamAt(g', c) ==> SeamAt(f, c) || TooLarge(g', c, false)
    {
      assert SeamAt(f, c) ==> SeamAt(g, c);
      assert SeamAt(g', c) ==> SeamAt(g, c) || TooLarge(g', c, c > bp0);
    }
  }

  // ---------------------------------------------------------------- one block

  /** The words of the block at `hp + 1`, and no others, come in reach. */
  lemma NextWords(hdr: Headers, from: Addr, hp: Addr, end: Addr, a: Addr)
    requires HeadersOk(hdr) && from <= hp && hp + 1 in hdr && end == hp + 1 + hdr[hp + 1].size
    ensures DeadWord(hdr, from, end, a) <==> DeadWord(hdr, from, hp, a) || (hdr[hp + 1].color == White && hp <= a < end)
  {
    assert forall b: Addr :: b in hdr && b > hp + 1 ==> Apart(hdr, hp + 1, b);
    if DeadWord(hdr, from, end, a) {
      var b: Addr :| InHeader(hdr, b, a) && from < b <= end && hdr[b].color == White;
    }
    if hdr[hp + 1].color == White && hp <= a < end { assert InHeader(hdr, hp + 1, a); }
    if DeadWord(hdr, from, hp, a) {
      var b: Addr :| InHeader(hdr, b, a) && from < b <= hp && hdr[b].color == White;
    }
  }

  lemma PassedWords(f: FreeList, g: FreeList, hdr: Headers, from: Addr, hp: Addr, end: Addr, frag: Addr)
    requires HeadersOk(hdr) && from <= hp && hp + 1 in hdr && end == hp + 1 + hdr[hp + 1].size
    requires WordsSwept(f, g, hdr, from, hp, frag) && hdr[hp + 1].color != White
    ensures WordsSwept(f, g, hdr, from, end, frag)
  {
    forall a: Addr ensures DeadWord(hdr, from, end, a) <==> DeadWord(hdr, from, hp, a) {
      NextWords(hdr, from, hp, end, a);
    }
  }

  /** The block at `hp + 1` has been freed, or is a fragment now. */
  lemma FreedWords(f: FreeList, g: FreeList, g': FreeList, hdr: Headers, from: Addr, hp: Addr, end: Addr, frag: Addr, frag': Addr,
      fragment: bool)
    requires HeadersOk(hdr) && from <= hp && hp + 1 in hdr && end == hp + 1 + hdr[hp + 1].size && hdr[hp + 1].color == White
    requires Swept(f, g, hdr, from, hp, frag, frag') && Merged(g, g', frag', hp + 1, hdr[hp + 1].size, fragment)
    ensures WordsSwept(f, g', hdr, from, end, frag)
  {
    forall a: Addr
      ensures Free(f, a) ==> Free(g', a)
      ensures DeadWord(hdr, from, end, a) ==> Free(g', a) || Fragment(hdr, a)
      ensures Free(g', a) ==> Free(f, a) || DeadWord(hdr, from, end, a) || (frag == from && a + 1 == frag)
    {
      NextWords(hdr, from, hp, end, a);
      assert Free(g, a) || !Free(g, a);
      if !fragment && frag' == hp && a + 1 == hp && hp > from { assert InHeader(hdr, hp, a) && DeadWord(hdr, from, hp, a); }
    }
  }

  // ---------------------------------------------------------------- the rest of the chunk

  lemma {:induction false} ChunkFrom(f: FreeList, c: nat, g: FreeList, d: nat, hdr: Headers, hp: Addr, limit: Addr)
    requires SameFrom(f, c, g, d) && Chunk(f, c, hdr, hp, limit)
    ensures Chunk(g, d, hdr, hp, limit)
    decreases limit - hp
  {
    assert c < |f.blocks| ==> g.blocks[c - c + d] == f.blocks[c];
    if hp < limit {
      var next := hp + 1 + hdr[hp + 1].size;
      if hdr[hp + 1].color == Blue {
        ChunkFrom(f, c + 1, g, d + 1, hdr, next, limit);
      } else {
        ChunkFrom(f, c, g, d, hdr, next, limit);
      }
    }
  }

  lemma ListBeyond(f: FreeList, m: nat, hdr: Headers, hp: Addr, limit: Addr)
    requires hp < limit && Chunk(f, m, hdr, hp, limit)
    ensures hdr[hp + 1].color != Blue && m < |f.blocks| ==> f.blocks[m] > hp + 1 + hdr[hp + 1].size
  {
  }

  /** Behind a dead block: where the sweep goes on. */
  lemma ChunkOnward(f: FreeList, g: FreeList, m: nat, m1: nat, hdr: Headers, hp: Addr, limit: Addr, end: Addr, adj: Addr)
    requires hp < limit && Chunk(f, m, hdr, hp, limit) && hdr[hp + 1].color == White && end == hp + 1 + hdr[hp + 1].size
    requires Onward(f, g, m, end, adj, m1)
    ensures Chunk(g, m1, hdr, adj, limit) && hp < end <= adj <= limit
    ensures adj != end ==> end + 1 in hdr && hdr[end + 1].color == Blue && adj == end + 1 + hdr[end + 1].size
  {
    if adj == end {
      ChunkFrom(f, m, g, m1, hdr, end, limit);
    } else {
      assert Chunk(f, m, hdr, end, limit) && end < limit;
      ListBeyond(f, m, hdr, end, limit);
      ChunkFrom(f, m + 1, g, m1, hdr, adj, limit);
    }
  }

  /** The words of a block that is not in the list are not free. */
  lemma {:induction false} NotListed(f: FreeList, m: nat, hdr: Headers, hp: Addr, limit: Addr, b: Addr, a: Addr)
    requires ListOk(f) && HeadersOk(hdr) && Chunk(f, m, hdr, hp, limit)
    requires m > 0 ==> f.blocks[m - 1] + Size(f, m - 1) <= hp
    requires InHeader(hdr, b, a) && hp < b <= limit && hdr[b].color != Blue
    ensures !Free(f, a)
    decreases limit - hp
  {
    var h := hdr[hp + 1];
    var next := hp + 1 + h.size;
    if b == hp + 1 {
      forall k: nat ensures !InBlock(f, k, a) {
        if k + 1 < m { assert Before(f, k, m - 1); }
        if m < k < |f.blocks| { assert Before(f, m, k); }
      }
    } else {
      assert Apart(hdr, hp + 1, b);
      NotListed(f, if h.color == Blue then m + 1 else m, hdr, next, limit, b, a);
    }
  }

  /** What the sweeper needs and keeps from one block to the next. */
  ghost predicate Sweeping(p: Policy, f: FreeList, hdr: Headers, from: Addr, hp: Addr, limit: Addr, frag: Addr, m: nat)
    reads p
  {
    && p.Valid() && HeadersOk(hdr) && 0 < from <= hp && (p.head < from || p.head > limit)
    && Chunk(p.F(), m, hdr, hp, limit) && Ready(p.F(), p.merge, p.lastFragment, hp, m)
    && Swept(f, p.F(), hdr, from, hp, frag, p.lastFragment)
  }

  lemma MayFree(p: Policy, f: FreeList, hdr: Headers, from: Addr, hp: Addr, limit: Addr, frag: Addr, m: nat)
    requires hp < limit && Sweeping(p, f, hdr, from, hp, limit, frag, m) && hp + 1 in hdr && hdr[hp + 1].color == White
    ensures SweptAt(p.F(), p.merge, p.lastFragment, hp + 1, hdr[hp + 1].size, m)
  {
    assert Chunk(p.F(), m, hdr, hp + 1 + hdr[hp + 1].size, limit);
  }

  /** A dead block has been freed or has become a fragment. */
  lemma BlockFreed(f: FreeList, g: FreeList, g': FreeList, hdr: Headers, from: Addr, hp: Addr, limit: Addr, adj: Addr, frag: Addr,
      frag1: Addr, frag2: Addr, fragment: bool, m: nat, m1: nat, merge: Addr, merge': Addr)
    requires HeadersOk(hdr) && hp < limit && hp + 1 in hdr && hdr[hp + 1].color == White && Chunk(g, m, hdr, hp, limit)
    requires from <= hp && Swept(f, g, hdr, from, hp, frag, frag1) && Merged(g, g', frag1, hp + 1, hdr[hp + 1].size, fragment)
    requires SeamsAfter(g, g', hp + 1) && Onward(g, g', m, hp + 1 + hdr[hp + 1].size, adj, m1)
    requires SweptAt(g, merge, frag1, hp + 1, hdr[hp + 1].size, m) && Ready(g, merge, frag1, hp, m) && merge' == Node(g', m1)
    requires g'.head == g.head && frag2 == if fragment then hp + 1 else frag1
    ensures hp < adj <= limit && Chunk(g', m1, hdr, adj, limit) && Swept(f, g', hdr, from, adj, frag, frag2)
    ensures Ready(g', merge', frag2, adj, m1)
  {
    var end := hp + 1 + hdr[hp + 1].size;
    ChunkOnward(g, g', m, m1, hdr, hp, limit, end, adj);
    FreedWords(f, g, g', hdr, from, hp, end, frag, frag1, fragment);
    if adj != end { PassedWords(f, g', hdr, from, end, adj, frag); }
    SeamsFurther(f, g, g', hp + 1);
  }

  /** sweep_slice at a dead block. */
  method FreeBlock(p: Policy, hdr: Headers, hp: Addr, limit: Addr, ghost f: FreeList, ghost from: Addr, ghost frag: Addr, ghost m: nat)
      returns (adj: Addr, ghost m1: nat)
    requires hp < limit && Sweeping(p, f, hdr, from, hp, limit, frag, m) && hp + 1 in hdr && hdr[hp + 1].color == White
    modifies p
    ensures hp < adj <= limit && Sweeping(p, f, hdr, from, adj, limit, frag, m1)
  {
    ghost var g, frag1, merge := p.F(), p.lastFragment, p.merge;
    ghost var fragment;
    MayFree(p, f, hdr, from, hp, limit, frag, m);
    adj, fragment, m1 := p.MergeBlock(hp + 1, hdr[hp + 1].size, m);
    BlockFreed(f, g, p.F(), hdr, from, hp, limit, adj, frag, frag1, p.lastFragment, fragment, m, m1, merge, p.merge);
  }

  /** sweep_slice at a free block: it becomes caml_fl_merge. */
  method PassFree(p: Policy, hdr: Headers, hp: Addr, limit: Addr, ghost f: FreeList, ghost from: Addr, ghost frag: Addr, ghost m: nat)
      returns (next: Addr)
    requires hp < limit && Sweeping(p, f, hdr, from, hp, limit, frag, m) && hp + 1 in hdr && hdr[hp + 1].color == Blue
    modifies p`merge
    ensures hp < next <= limit && Sweeping(p, f, hdr, from, next, limit, frag, m + 1)
  {
    next := hp + 1 + hdr[hp + 1].size;
    PassedWords(f, p.F(), hdr, from, hp, next, frag);
    p.merge := hp + 1;
    assert p.merge == Node(p.F(), m + 1);
  }

  /** sweep_slice over a chunk, from `start` to `limit`.  Every word of a dead block is free afterwards or a fragment,
      no word of a block in use is, and what was free still is.  Free blocks touch where they did before, and
      otherwise only where the two are too large for one. */
  method SweepChunk(p: Policy, hdr: Headers, start: Addr, limit: Addr, ghost m0: nat)
    requires p.Valid() && HeadersOk(hdr) && 0 < start <= limit && (p.head < start || p.head > limit)
    requires Chunk(p.F(), m0, hdr, start, limit) && Ready(p.F(), p.merge, p.lastFragment, start, m0)
    modifies p
    ensures p.Valid() && exists m :: Ready(p.F(), p.merge, p.lastFragment, limit, m)
    ensures WordsSwept(old(p.F()), p.F(), hdr, start, limit, old(p.lastFragment))
    ensures forall b: Addr, a: Addr {:trigger InHeader(hdr, b, a)} ::
              InHeader(hdr, b, a) && start < b <= limit && hdr[b].color != Blue && hdr[b].color != White ==> !Free(p.F(), a)
    ensures SeamsSwept(old(p.F()), p.F())
  {
    ghost var f, frag, m := p.F(), p.lastFragment, m0;
    var hp := start;
    while hp < limit
      invariant start <= hp <= limit && Sweeping(p, f, hdr, start, hp, limit, frag, m)
      decreases limit - hp
    {
      match hdr[hp + 1].color {
        case White => hp, m := FreeBlock(p, hdr, hp, limit, f, start, frag, m);
        case Blue => hp := PassFree(p, hdr, hp, limit, f, start, frag, m); m := m + 1;
        case _ =>
          ghost var hp0 := hp;
          hp := hp + 1 + hdr[hp + 1].size;
          PassedWords(f, p.F(), hdr, start, hp0, hp, frag);
      }
    }
    forall b: Addr, a: Addr | InHeader(hdr, b, a) && start < b <= limit && hdr[b].color != Blue && hdr[b].color != White
      ensures !Free(p.F(), a)
    {
      NotListed(f, m0, hdr, start, limit, b, a);
      InOneBlock(hdr, start, limit, b, a);
    }
  }

  lemma InOneBlock(hdr: Headers, from: Addr, hp: Addr, b: Addr, a: Addr)
    requires HeadersOk(hdr) && InHeader(hdr, b, a) && hdr[b].color != White && from < b
    ensures !DeadWord(hdr, from, hp, a) && a >= from
  {
    forall d: Addr | InHeader(hdr, d, a) ensures d == b {
      assert d < b ==> Apart(hdr, d, b);
      assert d > b ==> Apart(hdr, b, d);
    }
  }

  // ---------------------------------------------------------------- neighbours

  /** No free blocks touch, unless they are too large for one. */
  ghost predicate Coalesced(f: FreeList) {
    forall c: Addr {:trigger SeamAt(f, c)} :: SeamAt(f, c) ==> TooLarge(f, c, false)
  }

  lemma SweepCoalesces(f: FreeList, g: FreeList)
    requires SeamsSwept(f, g) && Coalesced(f)
    ensures Coalesced(g)
  {
    forall c: Addr | SeamAt(g, c) ensures TooLarge(g, c, false) {
      assert SeamAt(f, c) || !SeamAt(f, c);
    }
  }

  /** Allocation makes no free blocks touch that did not before. */
  lemma CarvedSeams(f: FreeList, k: nat, wo: nat, c: Addr)
    requires ListOk(f) && k < |f.blocks| && wo > 0 && Size(f, k) >= wo && SeamAt(Carved(f, k, wo), c)
    ensures SeamAt(f, c)
  {
    var j: nat :| Seam(Carved(f, k, wo), j) && Carved(f, k, wo).blocks[j + 1] == c;
    if Size(f, k) < wo + 2 {
      SeamWithout(f, k, j);
    } else {
      ReducedOk(f, k, Size(f, k) - (wo + 1));
      assert j == k ==> Before(f, k, k + 1);
      assert Seam(f, j);
    }
  }

  lemma SeamWithout(f: FreeList, k: nat, j: nat)
    requires ListOk(f) && k < |f.blocks| && Seam(Without(f, k), j)
    ensures SeamAt(f, Without(f, k).blocks[j + 1])
  {
    var g := Without(f, k);
    WithoutOk(f, k);
    var i: nat, x: nat, y: nat := j + 1, if j < k then j else j + 1, if j + 1 < k then j + 1 else j + 2;
    assert g.blocks[j] == f.blocks[x] && Size(g, j) == Size(f, x) && g.blocks[i] == f.blocks[y];
    assert k > 0 && k + 1 < |f.blocks| ==> Before(f, k - 1, k) && Before(f, k, k + 1);
    assert Seam(f, x);
  }
}
