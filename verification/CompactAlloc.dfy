// compact_allocate (compact.c): the virtual allocation that passes 3 and 4 of
// compaction both run.

module CompactAlloc {
  import opened Basics

  type Addr = nat

  /** A heap chunk: its first word and its size in words.  The chunk list is sorted by address. */
  datatype Chunk = Chunk(start: Addr, size: nat)

  /** Whsize of a block of three fields: a chunk with no more room than this may be skipped. */
  const SMALL: nat := 4

  ghost predicate GoodChunks(cs: seq<Chunk>) {
    && cs != []
    && (forall i :: 0 <= i < |cs| ==> cs[i].size > SMALL && cs[i].start > 0)
    && forall i, j :: 0 <= i < j < |cs| ==> cs[i].start + cs[i].size < cs[j].start
  }

  /** Chunk_alloc of every chunk, and compact_fl. */
  datatype State = State(alloc: seq<nat>, fl: nat)

  ghost predicate Fits(cs: seq<Chunk>, s: State) {
    && |s.alloc| == |cs| && s.fl < |cs|
    && forall i :: 0 <= i < |cs| ==> s.alloc[i] <= cs[i].size
  }

  function Room(cs: seq<Chunk>, s: State, i: nat): nat
    requires |s.alloc| == |cs| && i < |cs|
  {
    if s.alloc[i] <= cs[i].size then cs[i].size - s.alloc[i] else 0
  }

  /** init_compact_allocate */
  function Init(cs: seq<Chunk>): State {
    State(seq(|cs|, _ => 0), 0)
  }

  /** The first loop of compact_allocate; None where it looks beyond the last chunk. */
  function SkipFull(cs: seq<Chunk>, s: State): (r: Option<nat>)
    requires |s.alloc| == |cs| && s.fl < |cs|
    ensures r.Some? ==> s.fl <= r.value < |cs|
    decreases |cs| - s.fl
  {
    if Room(cs, s, s.fl) > SMALL then Some(s.fl)
    else if s.fl + 1 == |cs| then None
    else if Room(cs, s, s.fl + 1) > SMALL then Some(s.fl)
    else SkipFull(cs, s.(fl := s.fl + 1))
  }

  /** The second loop: the first chunk from `k` on with enough room. */
  function FirstRoom(cs: seq<Chunk>, s: State, k: nat, size: nat): (r: Option<nat>)
    requires |s.alloc| == |cs| && k <= |cs|
    ensures r.Some? ==> k <= r.value < |cs|
    decreases |cs| - k
  {
    if k == |cs| then None else if Room(cs, s, k) >= size then Some(k) else FirstRoom(cs, s, k + 1, size)
  }

  datatype Result = Undefined | NoRoom | At(adr: Addr, s: State)

  /** compact_allocate for `size` words, header included. */
  function Allocate(cs: seq<Chunk>, s: State, size: nat): Result
    requires |s.alloc| == |cs| && s.fl < |cs|
  {
    var fl := SkipFull(cs, s);
    if fl.None? then Undefined
    else
      var k := FirstRoom(cs, s, fl.value, size);
      if k.None? then NoRoom
      else At(cs[k.value].start + s.alloc[k.value], State(s.alloc[k.value := s.alloc[k.value] + size], fl.value))
  }

  class Allocator {
    const chunks: seq<Chunk>
    var alloc: seq<nat>
    var fl: nat

    ghost function S(): State
      reads this
    {
      State(alloc, fl)
    }

    constructor (chunks: seq<Chunk>)
      ensures this.chunks == chunks && S() == Init(chunks)
    {
      this.chunks := chunks;
      alloc, fl := seq(|chunks|, _ => 0), 0;
    }

    /** init_compact_allocate */
    method Reset()
      requires |alloc| == |chunks|
      modifies this
      ensures S() == Init(chunks)
    {
      var i := 0;
      while i < |chunks|
        invariant 0 <= i <= |chunks| && |alloc| == |chunks| && forall j :: 0 <= j < i ==> alloc[j] == 0
      {
        alloc := alloc[i := 0];
        i := i + 1;
      }
      fl := 0;
      assert alloc == seq(|chunks|, _ => 0);
    }

    /** compact_allocate */
    method CompactAllocate(size: nat) returns (adr: Addr)
      requires |alloc| == |chunks| && fl < |chunks| && Allocate(chunks, S(), size).At?
      modifies this
      ensures Allocate(chunks, old(S()), size) == At(adr, S())
    {
      ghost var s := S();
      while Room(chunks, State(alloc, fl), fl) <= SMALL && Room(chunks, State(alloc, fl), fl + 1) <= SMALL
        invariant fl < |chunks| && alloc == s.alloc && SkipFull(chunks, S()) == SkipFull(chunks, s)
        invariant SkipFull(chunks, S()).Some?
        decreases |chunks| - fl
      {
        fl := fl + 1;
      }
      var k := fl;
      while Room(chunks, State(alloc, fl), k) < size
        invariant fl <= k < |chunks| && alloc == s.alloc && SkipFull(chunks, s) == Some(fl)
        invariant FirstRoom(chunks, s, fl, size) == FirstRoom(chunks, s, k, size)
        decreases |chunks| - k
      {
        k := k + 1;
      }
      adr := chunks[k].start + alloc[k];
      alloc := alloc[k := alloc[k] + size];
    }
  }

  // ---------------------------------------------------------------- where blocks go

  /** The words of the chunks below their allocation mark. */
  ghost predicate Used(cs: seq<Chunk>, s: State, a: Addr) {
    |s.alloc| == |cs| && exists i :: UsedIn(cs, s, a, i)
  }

  ghost predicate UsedIn(cs: seq<Chunk>, s: State, a: Addr, i: int) {
    0 <= i < |cs| == |s.alloc| && cs[i].start <= a < cs[i].start + s.alloc[i]
  }

  /** The passes have reached address `cur` of chunk `c`: later chunks are untouched, and this one is
      allocated at most up to `cur`. */
  ghost predicate Reached(cs: seq<Chunk>, s: State, c: nat, cur: Addr) {
    && Fits(cs, s) && c < |cs| && s.fl <= c
    && cs[c].start <= cur <= cs[c].start + cs[c].size && s.alloc[c] <= cur - cs[c].start
    && forall i :: c < i < |cs| ==> s.alloc[i] == 0
  }

  lemma {:induction false} SkipStaysBehind(cs: seq<Chunk>, s: State, c: nat, cur: Addr)
    requires GoodChunks(cs) && Reached(cs, s, c, cur)
    ensures match SkipFull(cs, s)
            case None => c + 1 == |cs| && Room(cs, s, c) <= SMALL
            case Some(fl) => s.fl <= fl <= c
    decreases |cs| - s.fl
  {
    if Room(cs, s, s.fl) <= SMALL && s.fl + 1 < |cs| && Room(cs, s, s.fl + 1) <= SMALL {
      assert s.fl < c;
      SkipStaysBehind(cs, s.(fl := s.fl + 1), c, cur);
    }
  }

  lemma {:induction false} RoomFound(cs: seq<Chunk>, s: State, k: nat, c: nat, size: nat)
    requires |s.alloc| == |cs| && k <= c < |cs| && Room(cs, s, c) >= size
    ensures var r := FirstRoom(cs, s, k, size); r.Some? && k <= r.value <= c && Room(cs, s, r.value) >= size
    decreases c - k
  {
    if Room(cs, s, k) < size { RoomFound(cs, s, k + 1, c, size); }
  }

  /** A block at `cur` that fits its chunk is allocated at `cur` or before it, on words that are not
      used yet; the only way to fail is the look-ahead beyond the last chunk. */
  lemma AllocatesBehind(cs: seq<Chunk>, s: State, c: nat, cur: Addr, size: nat)
    requires GoodChunks(cs) && Reached(cs, s, c, cur) && size > 0 && cur + size <= cs[c].start + cs[c].size
    ensures var r := Allocate(cs, s, size);
            && (r.Undefined? <==> SkipFull(cs, s).None?) && !r.NoRoom?
            && (r.Undefined? ==> c + 1 == |cs| && Room(cs, s, c) <= SMALL)
            && (r.At? ==> r.adr <= cur && Reached(cs, r.s, c, cur + size))
            && (r.At? ==> forall a: Addr :: r.adr <= a < r.adr + size ==> !Used(cs, s, a))
            && (r.At? ==> forall a: Addr :: Used(cs, r.s, a) <==> Used(cs, s, a) || r.adr <= a < r.adr + size)
  {
    SkipStaysBehind(cs, s, c, cur);
    var fl := SkipFull(cs, s);
    if fl.Some? {
      RoomFound(cs, s, fl.value, c, size);
      var k := FirstRoom(cs, s, fl.value, size).value;
      var r := Allocate(cs, s, size);
      assert r.adr == cs[k].start + s.alloc[k];
      assert k < c ==> cs[k].start + cs[k].size < cs[c].start;
      NewWords(cs, s, k, size, r.s);
    }
  }

  lemma NewWords(cs: seq<Chunk>, s: State, k: nat, size: nat, s': State)
    requires GoodChunks(cs) && Fits(cs, s) && k < |cs| && Room(cs, s, k) >= size
             && s'.alloc == s.alloc[k := s.alloc[k] + size]
    ensures var adr := cs[k].start + s.alloc[k];
            && (forall a: Addr :: adr <= a < adr + size ==> !Used(cs, s, a))
            && (forall a: Addr :: Used(cs, s', a) <==> Used(cs, s, a) || adr <= a < adr + size)
  {
    var adr := cs[k].start + s.alloc[k];
    forall a: Addr, i: int | adr <= a < adr + size && 0 <= i < |cs| ensures !UsedIn(cs, s, a, i) {
      assert i < k ==> cs[i].start + cs[i].size < cs[k].start;
      assert i > k ==> cs[k].start + cs[k].size < cs[i].start;
    }
    forall a: Addr | Used(cs, s', a) ensures Used(cs, s, a) || adr <= a < adr + size {
      var i :| UsedIn(cs, s', a, i);
      assert i != k ==> UsedIn(cs, s, a, i);
      assert i == k && a < adr ==> UsedIn(cs, s, a, i);
    }
    forall a: Addr | Used(cs, s, a) || adr <= a < adr + size ensures Used(cs, s', a) {
      if adr <= a < adr + size {
        assert UsedIn(cs, s', a, k);
      } else {
        var i :| UsedIn(cs, s, a, i);
        assert UsedIn(cs, s', a, i);
      }
    }
  }

  /** The next block of the chunk, or the next chunk. */
  lemma MovesOn(cs: seq<Chunk>, s: State, c: nat, cur: Addr, next: Addr)
    requires Reached(cs, s, c, cur) && cur <= next <= cs[c].start + cs[c].size
    ensures Reached(cs, s, c, next)
    ensures c + 1 < |cs| ==> Reached(cs, s, c + 1, cs[c + 1].start)
  {
  }

  lemma StartsReached(cs: seq<Chunk>)
    requires GoodChunks(cs)
    ensures Reached(cs, Init(cs), 0, cs[0].start) && forall a: Addr :: !Used(cs, Init(cs), a)
  {
  }

  // ---------------------------------------------------------------- the look-ahead

  /** The look-ahead leaves the heap exactly when every chunk from compact_fl on is as good as full. */
  lemma {:induction false} LookAheadExactly(cs: seq<Chunk>, s: State)
    requires |s.alloc| == |cs| && s.fl < |cs|
    ensures SkipFull(cs, s).None? <==> forall i :: s.fl <= i < |cs| ==> Room(cs, s, i) <= SMALL
    decreases |cs| - s.fl
  {
    if s.fl + 1 < |cs| {
      var t := s.(fl := s.fl + 1);
      LookAheadExactly(cs, t);
      assert forall i :: 0 <= i < |cs| ==> Room(cs, t, i) == Room(cs, s, i);
    }
  }
}
