// Where compaction puts the surviving blocks (compact.c, passes 3 and 4): each
// goes, in heap order, where compact_allocate says.

module Placement {
  import opened Basics
  import opened Threading
  import opened Inversion
  import opened HeapChunks
  import A = CompactAlloc

  function End(c: A.Chunk): Addr {
    c.start + c.size
  }

  /** The new addresses of the blocks in `live` from word `p` of chunk `c` on; None if compact_allocate
      looks beyond the last chunk. */
  ghost function Plan(l: Layout, cs: seq<A.Chunk>, live: set<Addr>, c: nat, p: Addr,
      s: A.State): Option<map<Addr, Addr>>
    requires |s.alloc| == |cs| && s.fl < |cs|
    decreases |cs| - c, if c < |cs| && p < End(cs[c]) then End(cs[c]) - p else 0
  {
    if c >= |cs| then Some(map[])
    else if p >= End(cs[c]) then (if c + 1 < |cs| then Plan(l, cs, live, c + 1, cs[c + 1].start, s) else Some(map[]))
    else if p + 1 !in l.blocks then None
    else
      var next := p + 1 + l.blocks[p + 1].size;
      if p + 1 !in live then Plan(l, cs, live, c, next, s)
      else
        var r := A.Allocate(cs, s, l.blocks[p + 1].size + 1);
        if !r.At? then None
        else
          var rest := Plan(l, cs, live, c, next, r.s);
          if rest.None? then None else Some(rest.value[p + 1 := r.adr + 1])
  }

  /** A position between two blocks. */
  ghost predicate Position(l: Layout, cs: seq<A.Chunk>, c: nat, p: Addr) {
    c < |cs| && cs[c].start <= p <= End(cs[c]) && (p < End(cs[c]) ==> p + 1 in l.blocks)
  }

  /** Word `a` belongs to the new place of block `v`. */
  ghost predicate Dest(l: Layout, m: map<Addr, Addr>, v: Addr, a: Addr) {
    v in m && v in l.blocks && m[v] - 1 <= a < m[v] + l.blocks[v].size
  }

  ghost predicate InSomeChunk(cs: seq<A.Chunk>, a: Addr) {
    exists i :: 0 <= i < |cs| && cs[i].start <= a < cs[i].start + cs[i].size
  }

  ghost predicate Behind(m: map<Addr, Addr>, v: Addr)
    requires v in m
  {
    0 < m[v] <= v
  }

  /** What a plan from word `p` on promises: the live blocks from there on move down or stay, to free
      words, and no two of them to the same word. */
  ghost predicate GoodPlan(l: Layout, cs: seq<A.Chunk>, live: set<Addr>, p: Addr, s: A.State, m: map<Addr, Addr>) {
    && (forall v: Addr :: v in m <==> v in live && v in l.blocks && p < v)
    && (forall v {:trigger Behind(m, v)} :: v in m ==> Behind(m, v))
    && (forall v: Addr, a: Addr {:trigger Dest(l, m, v, a)} :: Dest(l, m, v, a) ==> !A.Used(cs, s, a) && InSomeChunk(cs, a))
    && forall v: Addr, w: Addr, a: Addr {:trigger Dest(l, m, v, a), Dest(l, m, w, a)} :: Dest(l, m, v, a) && Dest(l, m, w, a) ==> v == w
  }

  lemma NextPosition(l: Layout, orig: Memory, cs: seq<A.Chunk>, c: nat, p: Addr)
    requires GoodLayout(l) && HeapOk(l, orig, cs) && Position(l, cs, c, p) && p < End(cs[c])
    ensures Position(l, cs, c, p + 1 + l.blocks[p + 1].size)
    ensures forall v: Addr :: v in l.blocks && p + 1 < v ==> p + 1 + l.blocks[p + 1].size < v
  {
    assert ChunkOk(l, cs[c]);
    NextBlock(l, cs[c], p + 1);
    forall v: Addr | v in l.blocks && p + 1 < v ensures p + 1 + l.blocks[p + 1].size < v {
      assert Separate(l, p + 1, v);
    }
  }

  lemma NextChunk(l: Layout, orig: Memory, cs: seq<A.Chunk>, c: nat)
    requires GoodLayout(l) && HeapOk(l, orig, cs) && c < |cs|
    ensures c + 1 < |cs| ==> Position(l, cs, c + 1, cs[c + 1].start) && End(cs[c]) < cs[c + 1].start
    ensures forall v: Addr :: v in l.blocks && End(cs[c]) < v ==> c + 1 < |cs| && cs[c + 1].start < v
  {
    if c + 1 < |cs| {
      assert ChunkOk(l, cs[c + 1]);
      ChunkOrder(cs, c, c + 1);
    }
    forall v: Addr | v in l.blocks && End(cs[c]) < v ensures c + 1 < |cs| && cs[c + 1].start < v {
      assert Housed(cs, v);
      var i :| Within(cs, v, i);
      ChunksInOrder(cs, c);
      if c + 1 < |cs| { ChunksInOrder(cs, c + 1); }
    }
  }

  lemma ChunksInOrder(cs: seq<A.Chunk>, c: nat)
    requires A.GoodChunks(cs) && c < |cs|
    ensures forall i :: 0 <= i < c ==> End(cs[i]) < cs[c].start
    ensures forall i :: c < i < |cs| ==> End(cs[c]) < cs[i].start
  {
  }

  /** One more block before a good plan. */
  lemma PlanStep(l: Layout, cs: seq<A.Chunk>, live: set<Addr>, c: nat, p: Addr, s: A.State, adr: Addr, s': A.State,
      rest: map<Addr, Addr>)
    requires A.GoodChunks(cs) && A.Reached(cs, s, c, p) && p + 1 in l.blocks && p + 1 in live
    requires p + 1 + l.blocks[p + 1].size <= End(cs[c])
    requires A.Allocate(cs, s, l.blocks[p + 1].size + 1) == A.At(adr, s')
    requires GoodPlan(l, cs, live, p + 1 + l.blocks[p + 1].size, s', rest)
    requires forall v: Addr :: v in l.blocks && p + 1 < v ==> p + 1 + l.blocks[p + 1].size < v
    ensures GoodPlan(l, cs, live, p, s, rest[p + 1 := adr + 1])
  {
    var size := l.blocks[p + 1].size;
    var m := rest[p + 1 := adr + 1];
    A.AllocatesBehind(cs, s, c, p, size + 1);
    forall v: Addr, a: Addr | Dest(l, m, v, a) ensures !A.Used(cs, s, a) && InSomeChunk(cs, a) {
      if v == p + 1 {
        assert A.Used(cs, s', a);
        var i :| A.UsedIn(cs, s', a, i);
      } else {
        assert Dest(l, rest, v, a);
      }
    }
    forall v: Addr, w: Addr, a: Addr | Dest(l, m, v, a) && Dest(l, m, w, a) ensures v == w {
      assert v != p + 1 ==> Dest(l, rest, v, a);
      assert w != p + 1 ==> Dest(l, rest, w, a);
    }
    forall v | v in m ensures Behind(m, v) {
      assert v != p + 1 ==> Behind(rest, v);
    }
  }

  /** Passes 3 and 4 move blocks down or leave them where they are, to places apart from each other. */
  lemma {:induction false} PlanIsGood(l: Layout, orig: Memory, cs: seq<A.Chunk>, live: set<Addr>, c: nat, p: Addr,
      s: A.State)
    requires GoodLayout(l) && HeapOk(l, orig, cs) && Position(l, cs, c, p) && A.Reached(cs, s, c, p)
    requires Plan(l, cs, live, c, p, s).Some?
    ensures GoodPlan(l, cs, live, p, s, Plan(l, cs, live, c, p, s).value)
    decreases |cs| - c, End(cs[c]) - p
  {
    if p == End(cs[c]) {
      NextChunk(l, orig, cs, c);
      if c + 1 < |cs| {
        A.MovesOn(cs, s, c, p, p);
        PlanIsGood(l, orig, cs, live, c + 1, cs[c + 1].start, s);
      }
    } else {
      var next := p + 1 + l.blocks[p + 1].size;
      NextPosition(l, orig, cs, c, p);
      var s' := PlanAtBlock(l, orig, cs, live, c, p, s);
      PlanIsGood(l, orig, cs, live, c, next, s');
      if p + 1 in live {
        PlanStep(l, cs, live, c, p, s, Plan(l, cs, live, c, p, s).value[p + 1] - 1, s',
            Plan(l, cs, live, c, next, s').value);
      }
    }
  }

  /** The plan at a block, and the state of compact_allocate behind it. */
  lemma PlanAtBlock(l: Layout, orig: Memory, cs: seq<A.Chunk>, live: set<Addr>, c: nat, p: Addr,
      s: A.State) returns (s': A.State)
    requires HeapOk(l, orig, cs) && Position(l, cs, c, p) && A.Reached(cs, s, c, p) && p < End(cs[c])
    requires Position(l, cs, c, p + 1 + l.blocks[p + 1].size)
    requires Plan(l, cs, live, c, p, s).Some?
    ensures var next := p + 1 + l.blocks[p + 1].size;
            && A.Reached(cs, s', c, next) && Plan(l, cs, live, c, next, s').Some?
            && (p + 1 !in live ==> s' == s && Plan(l, cs, live, c, p, s) == Plan(l, cs, live, c, next, s))
            && (p + 1 in live ==>
                  var m := Plan(l, cs, live, c, p, s).value;
                  && p + 1 in m && m[p + 1] > 0
                  && A.Allocate(cs, s, l.blocks[p + 1].size + 1) == A.At(m[p + 1] - 1, s')
                  && m == Plan(l, cs, live, c, next, s').value[p + 1 := m[p + 1]])
  {
    var next := p + 1 + l.blocks[p + 1].size;
    if p + 1 in live {
      A.AllocatesBehind(cs, s, c, p, l.blocks[p + 1].size + 1);
      var r := A.Allocate(cs, s, l.blocks[p + 1].size + 1);
      s' := r.s;
    } else {
      A.MovesOn(cs, s, c, p, next);
      s' := s;
    }
  }

  // ---------------------------------------------------------------- when the plan exists

  /** The words of the blocks that do not survive, from word `p` to the end of its chunk. */
  ghost function Dead(l: Layout, live: set<Addr>, p: Addr, end: Addr): nat
    decreases if p < end then end - p else 0
  {
    if p >= end || p + 1 !in l.blocks then 0
    else (if p + 1 in live then 0 else l.blocks[p + 1].size + 1) + Dead(l, live, p + 1 + l.blocks[p + 1].size, end)
  }

  /** The words of the last block that survives, from word `p` to the end of its chunk; 0 if none does. */
  ghost function LastLive(l: Layout, live: set<Addr>, p: Addr, end: Addr): nat
    decreases if p < end then end - p else 0
  {
    if p >= end || p + 1 !in l.blocks then 0
    else
      var rest := LastLive(l, live, p + 1 + l.blocks[p + 1].size, end);
      if rest > 0 then rest else if p + 1 in live then l.blocks[p + 1].size + 1 else 0
  }

  /** Dead blocks and the last live one fit in the chunk, and are all of it where no other block is live. */
  lemma {:induction false} LastLiveIsBounded(l: Layout, orig: Memory, cs: seq<A.Chunk>, live: set<Addr>, c: nat,
      p: Addr)
    requires GoodLayout(l) && HeapOk(l, orig, cs) && Position(l, cs, c, p)
    ensures p + Dead(l, live, p, End(cs[c])) + LastLive(l, live, p, End(cs[c])) <= End(cs[c])
    ensures LastLive(l, live, p, End(cs[c])) == 0 ==> p + Dead(l, live, p, End(cs[c])) == End(cs[c])
    decreases End(cs[c]) - p
  {
    if p < End(cs[c]) {
      NextPosition(l, orig, cs, c, p);
      LastLiveIsBounded(l, orig, cs, live, c, p + 1 + l.blocks[p + 1].size);
    }
  }

  /** `n` words do not all fit below the mark that lets compact_allocate skip a chunk. */
  ghost predicate Enough(l: Layout, live: set<Addr>, p: Addr, end: Addr, before: nat) {
    LastLive(l, live, p, end) > 0 ==> before + Dead(l, live, p, end) + LastLive(l, live, p, end) > A.SMALL
  }

  /** A condition on the last chunk that keeps every look-ahead of the passes inside the heap: the last
      block that survives there and the words that do not survive are more than four words, or nothing
      survives. */
  lemma {:induction false} LookAheadStaysInside(l: Layout, orig: Memory, cs: seq<A.Chunk>, live: set<Addr>, c: nat,
      p: Addr, s: A.State, before: nat)
    requires GoodLayout(l) && HeapOk(l, orig, cs) && Position(l, cs, c, p) && A.Reached(cs, s, c, p)
    requires s.alloc[c] + before <= p - cs[c].start
    requires if c + 1 == |cs| then Enough(l, live, p, End(cs[c]), before) else Enough(l, live, cs[|cs| - 1].start, End(cs[|cs| - 1]), 0)
    ensures Plan(l, cs, live, c, p, s).Some?
    decreases |cs| - c, End(cs[c]) - p
  {
    if p == End(cs[c]) {
      NextChunk(l, orig, cs, c);
      if c + 1 < |cs| {
        A.MovesOn(cs, s, c, p, p);
        LookAheadStaysInside(l, orig, cs, live, c + 1, cs[c + 1].start, s, 0);
      }
    } else {
      NextPosition(l, orig, cs, c, p);
      var next := p + 1 + l.blocks[p + 1].size;
      if p + 1 in live {
        var r := LiveBlockFits(l, orig, cs, live, c, p, s, before);
        LookAheadStaysInside(l, orig, cs, live, c, next, r.s, before);
      } else {
        A.MovesOn(cs, s, c, p, next);
        LookAheadStaysInside(l, orig, cs, live, c, next, s, before + l.blocks[p + 1].size + 1);
      }
    }
  }

  lemma LiveBlockFits(l: Layout, orig: Memory, cs: seq<A.Chunk>, live: set<Addr>, c: nat, p: Addr, s: A.State,
      before: nat) returns (r: A.Result)
    requires GoodLayout(l) && HeapOk(l, orig, cs) && Position(l, cs, c, p) && A.Reached(cs, s, c, p) && p < End(cs[c])
             && p + 1 in live
    requires Position(l, cs, c, p + 1 + l.blocks[p + 1].size)
    requires s.alloc[c] + before <= p - cs[c].start
    requires c + 1 == |cs| ==> Enough(l, live, p, End(cs[c]), before)
    ensures var size := l.blocks[p + 1].size + 1;
            && r == A.Allocate(cs, s, size) && r.At? && A.Reached(cs, r.s, c, p + size) && r.s.alloc[c] + before <= p + size - cs[c].start
            && (c + 1 == |cs| ==> Enough(l, live, p + size, End(cs[c]), before))
  {
    var size := l.blocks[p + 1].size + 1;
    r := A.Allocate(cs, s, size);
    A.AllocatesBehind(cs, s, c, p, size);
    LastLiveIsBounded(l, orig, cs, live, c, p);
    StillBefore(cs, s, c, p, size, before);
  }

  lemma StillBefore(cs: seq<A.Chunk>, s: A.State, c: nat, p: Addr, size: nat, before: nat)
    requires A.GoodChunks(cs) && A.Reached(cs, s, c, p) && s.alloc[c] + before <= p - cs[c].start
    requires A.Allocate(cs, s, size).At?
    ensures var r := A.Allocate(cs, s, size); c < |r.s.alloc| && r.s.alloc[c] + before <= p + size - cs[c].start
  {
  }

  /** With one chunk the condition is exact. */
  lemma {:induction false} OneChunkExactly(l: Layout, orig: Memory, cs: seq<A.Chunk>, live: set<Addr>, p: Addr,
      s: A.State, before: nat)
    requires GoodLayout(l) && HeapOk(l, orig, cs) && |cs| == 1 && Position(l, cs, 0, p) && A.Reached(cs, s, 0, p)
    requires s.alloc[0] + before == p - cs[0].start
    ensures Plan(l, cs, live, 0, p, s).Some? <==> Enough(l, live, p, End(cs[0]), before)
    decreases End(cs[0]) - p
  {
    if p < End(cs[0]) {
      NextPosition(l, orig, cs, 0, p);
      var size := l.blocks[p + 1].size + 1;
      LastLiveIsBounded(l, orig, cs, live, 0, p);
      if p + 1 in live {
        A.AllocatesBehind(cs, s, 0, p, size);
        if A.Allocate(cs, s, size).At? {
          LastLiveIsBounded(l, orig, cs, live, 0, p + size);
          OneChunkExactly(l, orig, cs, live, p + size, A.Allocate(cs, s, size).s, before);
        }
      } else {
        A.MovesOn(cs, s, 0, p, p + size);
        OneChunkExactly(l, orig, cs, live, p + size, s, before + size);
      }
    }
  }

  /** Some live block is reached when every chunk of the heap has at most four words left. */
  ghost predicate Crowded(l: Layout, cs: seq<A.Chunk>, live: set<Addr>, c: nat, p: Addr, s: A.State)
    requires |s.alloc| == |cs| && s.fl < |cs|
    decreases |cs| - c, if c < |cs| && p < End(cs[c]) then End(cs[c]) - p else 0
  {
    if c >= |cs| then false
    else if p >= End(cs[c]) then c + 1 < |cs| && Crowded(l, cs, live, c + 1, cs[c + 1].start, s)
    else if p + 1 !in l.blocks then false
    else if p + 1 !in live then Crowded(l, cs, live, c, p + 1 + l.blocks[p + 1].size, s)
    else
      || (forall i: nat :: i < |cs| ==> A.Room(cs, s, i) <= A.SMALL)
      || var r := A.Allocate(cs, s, l.blocks[p + 1].size + 1);
         r.At? && Crowded(l, cs, live, c, p + 1 + l.blocks[p + 1].size, r.s)
  }

  /** The chunks that compact_fl has passed have at most four words left. */
  ghost predicate FullBelow(cs: seq<A.Chunk>, s: A.State) {
    |s.alloc| == |cs| && s.fl < |cs| && forall i: nat :: i < s.fl ==> A.Room(cs, s, i) <= A.SMALL
  }

  lemma {:induction false} SkipKeepsFull(cs: seq<A.Chunk>, s: A.State)
    requires FullBelow(cs, s)
    ensures A.SkipFull(cs, s).Some? ==> FullBelow(cs, s.(fl := A.SkipFull(cs, s).value))
    decreases |cs| - s.fl
  {
    if A.Room(cs, s, s.fl) <= A.SMALL && s.fl + 1 < |cs| && A.Room(cs, s, s.fl + 1) <= A.SMALL {
      var t := s.(fl := s.fl + 1);
      assert forall i: nat :: i < |cs| ==> A.Room(cs, t, i) == A.Room(cs, s, i);
      SkipKeepsFull(cs, t);
    }
  }

  lemma AllocateKeepsFull(cs: seq<A.Chunk>, s: A.State, size: nat)
    requires FullBelow(cs, s) && A.Allocate(cs, s, size).At?
    ensures FullBelow(cs, A.Allocate(cs, s, size).s)
  {
    SkipKeepsFull(cs, s);
    var fl := A.SkipFull(cs, s).value;
    var s' := A.Allocate(cs, s, size).s;
    forall i: nat | i < fl ensures A.Room(cs, s', i) <= A.SMALL {
      assert A.Room(cs, s.(fl := fl), i) <= A.SMALL;
    }
  }

  lemma {:induction false} FirstRoomIsFirst(cs: seq<A.Chunk>, s: A.State, k: nat, size: nat)
    requires |s.alloc| == |cs| && k <= |cs| && A.FirstRoom(cs, s, k, size).Some?
    ensures var r := A.FirstRoom(cs, s, k, size).value;
            A.Room(cs, s, r) >= size && forall j: nat :: k <= j < r ==> A.Room(cs, s, j) < size
    decreases |cs| - k
  {
    if A.Room(cs, s, k) < size { FirstRoomIsFirst(cs, s, k + 1, size); }
  }

  /** Chunk `k` is the first one of the whole heap with room for `size` words. */
  ghost predicate FirstOfAll(cs: seq<A.Chunk>, s: A.State, size: nat, k: nat) {
    |s.alloc| == |cs| && k < |cs| && A.Room(cs, s, k) >= size && forall j: nat :: j < k ==> A.Room(cs, s, j) < size
  }

  /** Although the search starts at compact_fl, a block of five words or more, header included, goes to the first
      chunk of the heap with room for it. */
  lemma BigBlockGoesFirst(cs: seq<A.Chunk>, s: A.State, size: nat) returns (k: nat)
    requires FullBelow(cs, s) && size >= 5 && A.Allocate(cs, s, size).At?
    ensures FirstOfAll(cs, s, size, k) && A.Allocate(cs, s, size).adr == cs[k].start + s.alloc[k]
    ensures FullBelow(cs, A.Allocate(cs, s, size).s)
  {
    SkipKeepsFull(cs, s);
    AllocateKeepsFull(cs, s, size);
    var fl := A.SkipFull(cs, s).value;
    FirstRoomIsFirst(cs, s, fl, size);
    k := A.FirstRoom(cs, s, fl, size).value;
    var t := s.(fl := fl);
    forall j: nat | j < k ensures A.Room(cs, s, j) < size {
      assert j < fl ==> A.Room(cs, t, j) <= A.SMALL;
    }
  }

  /** A pass looks beyond the last chunk exactly when it reaches a live block while every chunk of the heap
      has at most four words left. */
  lemma {:induction false} LookAheadLeavesExactly(l: Layout, orig: Memory, cs: seq<A.Chunk>, live: set<Addr>, c: nat,
      p: Addr, s: A.State)
    requires GoodLayout(l) && HeapOk(l, orig, cs) && Position(l, cs, c, p) && A.Reached(cs, s, c, p) && FullBelow(cs, s)
    ensures Plan(l, cs, live, c, p, s).None? <==> Crowded(l, cs, live, c, p, s)
    decreases |cs| - c, End(cs[c]) - p
  {
    if p == End(cs[c]) {
      NextChunk(l, orig, cs, c);
      if c + 1 < |cs| {
        A.MovesOn(cs, s, c, p, p);
        LookAheadLeavesExactly(l, orig, cs, live, c + 1, cs[c + 1].start, s);
      }
    } else {
      NextPosition(l, orig, cs, c, p);
      var next := p + 1 + l.blocks[p + 1].size;
      if p + 1 in live {
        var r := LiveStep(cs, c, p, s, l.blocks[p + 1].size + 1);
        if r.At? { LookAheadLeavesExactly(l, orig, cs, live, c, next, r.s); }
      } else {
        A.MovesOn(cs, s, c, p, next);
        LookAheadLeavesExactly(l, orig, cs, live, c, next, s);
      }
    }
  }

  lemma LiveStep(cs: seq<A.Chunk>, c: nat, p: Addr, s: A.State, size: nat) returns (r: A.Result)
    requires A.GoodChunks(cs) && A.Reached(cs, s, c, p) && FullBelow(cs, s) && size > 0 && p + size <= End(cs[c])
    ensures r == A.Allocate(cs, s, size) && !r.NoRoom?
    ensures r.Undefined? <==> forall i: nat :: i < |cs| ==> A.Room(cs, s, i) <= A.SMALL
    ensures r.At? ==> A.Reached(cs, r.s, c, p + size) && FullBelow(cs, r.s)
  {
    r := A.Allocate(cs, s, size);
    A.AllocatesBehind(cs, s, c, p, size);
    A.LookAheadExactly(cs, s);
    if r.At? { AllocateKeepsFull(cs, s, size); }
  }

  // ---------------------------------------------------------------- passes 3 and 4

  ghost predicate Agree(l: Layout, plan: map<Addr, Addr>, rest: map<Addr, Addr>, p: Addr) {
    forall v: Addr {:trigger v in rest} {:trigger v in plan} :: v in l.blocks && p < v ==> (v in rest <==> v in plan) && (v in rest && v in plan ==> rest[v] == plan[v])
  }

  /** A pass has reached word `p` of chunk `c`, and what compact_allocate will answer from here on is
      what the plan says. */
  ghost predicate Passing(l: Layout, cs: seq<A.Chunk>, live: set<Addr>, plan: map<Addr, Addr>, c: nat, p: Addr,
      s: A.State) {
    && Position(l, cs, c, p) && A.Reached(cs, s, c, p)
    && Plan(l, cs, live, c, p, s).Some? && Agree(l, plan, Plan(l, cs, live, c, p, s).value, p)
  }

  lemma PassBegins(l: Layout, orig: Memory, cs: seq<A.Chunk>, live: set<Addr>)
    requires GoodLayout(l) && HeapOk(l, orig, cs) && Plan(l, cs, live, 0, cs[0].start, A.Init(cs)).Some?
    ensures var plan := Plan(l, cs, live, 0, cs[0].start, A.Init(cs)).value;
            Passing(l, cs, live, plan, 0, cs[0].start, A.Init(cs)) && GoodPlan(l, cs, live, cs[0].start, A.Init(cs), plan)
            && forall v: Addr :: v in plan <==> v in live && v in l.blocks
  {
    A.StartsReached(cs);
    assert ChunkOk(l, cs[0]);
    PlanIsGood(l, orig, cs, live, 0, cs[0].start, A.Init(cs));
    forall v: Addr | v in l.blocks ensures cs[0].start < v {
      assert Housed(cs, v);
      var i :| Within(cs, v, i);
      ChunksInOrder(cs, 0);
    }
  }

  /** At each block compact_allocate answers what the plan says. */
  lemma PassBlock(l: Layout, orig: Memory, cs: seq<A.Chunk>, live: set<Addr>, plan: map<Addr, Addr>, c: nat, p: Addr,
      s: A.State) returns (s': A.State)
    requires GoodLayout(l) && HeapOk(l, orig, cs) && Passing(l, cs, live, plan, c, p, s) && p < End(cs[c])
    ensures Passing(l, cs, live, plan, c, p + 1 + l.blocks[p + 1].size, s')
    ensures p + 1 !in live ==> s' == s
    ensures p + 1 in live ==> p + 1 in plan && plan[p + 1] > 0 && A.Allocate(cs, s, l.blocks[p + 1].size + 1) == A.At(plan[p + 1] - 1, s')
  {
    NextPosition(l, orig, cs, c, p);
    s' := PlanAtBlock(l, orig, cs, live, c, p, s);
  }

  lemma PassChunk(l: Layout, orig: Memory, cs: seq<A.Chunk>, live: set<Addr>, plan: map<Addr, Addr>, c: nat, s: A.State)
    requires GoodLayout(l) && HeapOk(l, orig, cs) && c + 1 < |cs| && Passing(l, cs, live, plan, c, End(cs[c]), s)
    ensures Passing(l, cs, live, plan, c + 1, cs[c + 1].start, s) && End(cs[c]) < cs[c + 1].start
    ensures forall v: Addr :: v in l.blocks && End(cs[c]) < v ==> cs[c + 1].start < v
  {
    NextChunk(l, orig, cs, c);
    A.MovesOn(cs, s, c, End(cs[c]), End(cs[c]));
  }
}
