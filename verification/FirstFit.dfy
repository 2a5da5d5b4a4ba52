// The first-fit policy (freelist.c): a list of free blocks by increasing
// address, and the table flp that finds the first block that fits.

module FirstFit {
  import opened Basics
  import opened FlpIndex

  /** The links of the list in memory: Next_small of every node. */
  ghost predicate Linked(next: map<Addr, Addr>, f: FreeList) {
    forall k: nat {:trigger Node(f, k)} :: k <= |f.blocks| ==> Node(f, k) in next && next[Node(f, k)] == if k < |f.blocks| then f.blocks[k] else 0
  }

  /** The words of the first `n` blocks, headers included. */
  ghost function Total(f: FreeList, n: nat): nat
    requires n <= |f.blocks|
  {
    if n == 0 then 0 else Total(f, n - 1) + Size(f, n - 1) + 1
  }

  ghost predicate IsNode(f: FreeList, a: Addr) {
    exists k: nat :: k <= |f.blocks| && a == Node(f, k)
  }

  // ---------------------------------------------------------------- words

  ghost predicate InBlock(f: FreeList, k: nat, a: Addr) {
    k < |f.blocks| && f.blocks[k] <= a + 1 && a < f.blocks[k] + Size(f, k)
  }

  /** Word `a` belongs to a free block. */
  ghost predicate Free(f: FreeList, a: Addr) {
    exists k: nat :: InBlock(f, k, a)
  }

  lemma {:induction false} TotalSame(f: FreeList, g: FreeList, n: nat)
    requires SameUpTo(f, g, n)
    ensures Total(g, n) == Total(f, n)
  {
    if n > 0 { TotalSame(f, g, n - 1); }
  }

  lemma {:induction false} TotalShift(f: FreeList, g: FreeList, c: nat, d: nat, n: nat)
    requires SameTail(f, g, c, d) && c <= n <= |f.blocks|
    ensures Total(g, n - d) - Total(g, c - d) == Total(f, n) - Total(f, c)
  {
    if c < n {
      TotalShift(f, g, c, d, n - 1);
      assert f.blocks[n - 1] == g.blocks[n - 1 - d];
    }
  }

  lemma TotalWithout(f: FreeList, k: nat)
    requires ListOk(f) && k < |f.blocks|
    ensures var g := Without(f, k); Total(g, |g.blocks|) == Total(f, |f.blocks|) - (Size(f, k) + 1)
  {
    WithoutOk(f, k);
    var g := Without(f, k);
    TotalSame(f, g, k);
    TotalShift(f, g, k + 1, 1, |f.blocks|);
  }

  lemma TotalReduced(f: FreeList, k: nat, sz: nat)
    requires ListOk(f) && k < |f.blocks| && 0 < sz <= Size(f, k)
    ensures var g := Reduced(f, k, sz); Total(g, |g.blocks|) == Total(f, |f.blocks|) - (Size(f, k) - sz)
  {
    ReducedOk(f, k, sz);
    var g := Reduced(f, k, sz);
    TotalSame(f, g, k);
    TotalShift(f, g, k + 1, 0, |f.blocks|);
  }

  // ---------------------------------------------------------------- links

  lemma LinkedWithout(next: map<Addr, Addr>, f: FreeList, k: nat)
    requires ListOk(f) && Linked(next, f) && k < |f.blocks|
    ensures Node(f, k) in next && f.blocks[k] in next && Linked(next[Node(f, k) := next[f.blocks[k]]], Without(f, k))
  {
    var g := Without(f, k);
    WithoutOk(f, k);
    assert Node(f, k + 1) == f.blocks[k];
    forall j: nat | j <= |g.blocks| ensures Node(g, j) == Node(f, if j <= k then j else j + 1) && (Node(g, j) == Node(f, k) <==> j == k) {
      SameNode(f, if j <= k then j else j + 1, k);
    }
  }

  lemma LinkedReduced(next: map<Addr, Addr>, f: FreeList, k: nat, sz: nat)
    requires Linked(next, f) && k < |f.blocks|
    ensures Linked(next, Reduced(f, k, sz))
  {
    var g := Reduced(f, k, sz);
    assert forall j: nat :: j <= |f.blocks| ==> Node(g, j) == Node(f, j);
  }

  // ---------------------------------------------------------------- the table after an allocation

  /** After the block of entry `i` was taken out or reduced: the entries before `i` are right, entry `i` is
      its predecessor, and from entry `i + 1` on they are right again. */
  ghost predicate Gap(g: FreeList, flp: seq<Addr>, i: nat, k: nat, c: nat, m: nat, oldsz: nat) {
    && i + 1 < |flp| && k <= c < m <= |g.blocks|
    && flp[..i] == Records(g, k) && flp[i] == Node(g, k) && flp[i + 1] == Node(g, c)
    && Records(g, m) == Records(g, c) + flp[i + 1..]
    && forall j: nat :: k <= j < c ==> Size(g, j) <= oldsz
  }

  /** Entry `i + 1` of the table stands for block `c`, the next record after block `k`. */
  ghost predicate NextEntry(f: FreeList, flp: seq<Addr>, n: nat, i: nat, k: nat, c: nat) {
    && TableOk(f, flp, n) && i + 1 < |flp| && k < c < n && Size(f, c) > Max(f, c) && Size(f, c) > Size(f, k) && |Records(f, c)| == i + 1
    && flp[..i] == Records(f, k) && flp[i] == Node(f, k) && flp[i + 1] == Node(f, c)
    && forall j: nat :: k < j < c ==> Size(f, j) <= Size(f, k)
  }

  lemma GapAround(f: FreeList, g: FreeList, flp: seq<Addr>, flp': seq<Addr>, n: nat, i: nat, k: nat, c: nat, d: nat)
    requires NextEntry(f, flp, n, i, k, c) && SameTail(f, g, c, d) && SameUpTo(f, g, k) && k <= c - d && d <= 1
    requires forall j: nat :: j < c - d ==> Size(g, j) <= Size(f, if d == 0 || j < k then j else j + d)
    requires i + 1 < |flp| && flp' == flp[i + 1 := Node(g, c - d)]
    ensures Gap(g, flp', i, k, c - d, n - d, Size(f, k)) && TableEnd(g, n - d) && Max(g, k) == Max(f, k)
  {
    SamePrefix(f, g, k);
    SmallerBefore(f, g, k, c, d);
    TailSame(f, g, c, d, n);
    TableEndStays(f, g, c, d, n);
    AfterUpdate(flp, i, Node(g, c - d));
    assert Records(g, n - d) == Records(g, c - d) + ([Node(g, c - d)] + flp[i + 2..]);
    assert Node(g, k) == Node(f, k);
    GapSizes(f, g, k, c, d);
  }

  lemma GapSizes(f: FreeList, g: FreeList, k: nat, c: nat, d: nat)
    requires k <= c - d <= |g.blocks| && c < |f.blocks| && d <= 1
             && forall j: nat :: k < j < c ==> Size(f, j) <= Size(f, k)
    requires forall j: nat :: j < c - d ==> Size(g, j) <= Size(f, if d == 0 || j < k then j else j + d)
    ensures forall j: nat :: k <= j < c - d ==> Size(g, j) <= Size(f, k)
  {
  }

  lemma AfterUpdate(s: seq<Addr>, i: nat, a: Addr)
    requires i + 1 < |s|
    ensures var t := s[i + 1 := a]; t[..i] == s[..i] && t[i] == s[i] && t[i + 1..] == [a] + s[i + 2..]
  {
  }

  lemma ReducedGap(f: FreeList, flp: seq<Addr>, n: nat, i: nat, k: nat, sz: nat) returns (c: nat)
    requires ListOk(f) && TableOk(f, flp, n) && k < n && i + 1 < |flp| && i == |Records(f, k)| && Size(f, k) > Max(f, k)
    requires 0 < sz <= Size(f, k)
    ensures var g := Reduced(f, k, sz); Gap(g, flp, i, k, c, n, Size(f, k)) && k < c && k + 1 < n && TableEnd(g, n) && Max(g, k) == Max(f, k)
  {
    c := NextRecord(f, flp, n, i, k);
    ReducedOk(f, k, sz);
    assert Node(Reduced(f, k, sz), c) == Node(f, c);
    assert flp == flp[i + 1 := Node(f, c)];
    GapAround(f, Reduced(f, k, sz), flp, flp, n, i, k, c, 0);
  }

  lemma WithoutGap(f: FreeList, flp: seq<Addr>, n: nat, i: nat, k: nat) returns (c: nat)
    requires ListOk(f) && TableOk(f, flp, n) && k < n && i + 1 < |flp| && i == |Records(f, k)| && Size(f, k) > Max(f, k)
    ensures var flp' := if flp[i + 1] == f.blocks[k] then flp[i + 1 := flp[i]] else flp;
            var g := Without(f, k);
            k + 1 < n && Gap(g, flp', i, k, c, n - 1, Size(f, k)) && TableEnd(g, n - 1) && Max(g, k) == Max(f, k)
  {
    var flp' := if flp[i + 1] == f.blocks[k] then flp[i + 1 := flp[i]] else flp;
    var c1 := NextRecord(f, flp, n, i, k);
    c := c1 - 1;
    WithoutShape(f, k, c1);
    WithoutNode(f, k, c1);
    GapFixed(f, Without(f, k), flp, flp', n, i, k, c1);
  }

  lemma GapFixed(f: FreeList, g: FreeList, flp: seq<Addr>, flp': seq<Addr>, n: nat, i: nat, k: nat, c: nat)
    requires NextEntry(f, flp, n, i, k, c) && SameTail(f, g, c, 1) && SameUpTo(f, g, k) && k < c <= |g.blocks| + 1
    requires forall j: nat :: j < c - 1 ==> Size(g, j) <= Size(f, if j < k then j else j + 1)
    requires Node(g, c - 1) == if Node(f, c) == f.blocks[k] then Node(f, k) else Node(f, c)
    requires flp' == if flp[i + 1] == f.blocks[k] then flp[i + 1 := flp[i]] else flp
    ensures Gap(g, flp', i, k, c - 1, n - 1, Size(f, k)) && TableEnd(g, n - 1) && Max(g, k) == Max(f, k)
  {
    assert flp' == flp[i + 1 := Node(g, c - 1)];
    GapAround(f, g, flp, flp', n, i, k, c, 1);
  }

  lemma WithoutShape(f: FreeList, k: nat, c: nat)
    requires ListOk(f) && k < c < |f.blocks|
    ensures var g := Without(f, k);
            SameTail(f, g, c, 1) && SameUpTo(f, g, k) && forall j: nat :: j < c - 1 ==> Size(g, j) <= Size(f, if j < k then j else j + 1)
  {
    WithoutOk(f, k);
    var g := Without(f, k);
    forall m: nat | c <= m < |f.blocks| ensures g.blocks[m - 1] == f.blocks[m] && Size(g, m - 1) == Size(f, m) {
      var j: nat := m - 1;
      assert g.blocks[j] == f.blocks[j + 1];
    }
  }

  lemma WithoutNode(f: FreeList, k: nat, c1: nat)
    requires ListOk(f) && k < c1 < |f.blocks|
    ensures Node(Without(f, k), c1 - 1) == if Node(f, c1) == f.blocks[k] then Node(f, k) else Node(f, c1)
    ensures Node(Without(f, k), k) == Node(f, k)
  {
    WithoutOk(f, k);
    SameNode(f, c1, k + 1);
  }

  /** The record of entry `i + 1`; the blocks between are no larger than block `k`. */
  lemma NextRecord(f: FreeList, flp: seq<Addr>, n: nat, i: nat, k: nat) returns (c: nat)
    requires ListOk(f) && TableOk(f, flp, n) && k < n && i + 1 < |flp| && i == |Records(f, k)| && Size(f, k) > Max(f, k)
    ensures c <= |f.blocks| && NextEntry(f, flp, n, i, k, c)
  {
    c := EntryAt(f, n, i + 1);
    RecordIn(f, k, n);
    if c <= k { PrefixOf(f, c, k); }
    MaxBound(f, c, k);
    NoneBetween(f, k, c);
  }

  lemma NoneBetween(f: FreeList, k: nat, c: nat)
    requires ListOk(f) && k < c <= |f.blocks| && Size(f, k) > Max(f, k) && |Records(f, c)| == |Records(f, k)| + 1
    ensures forall j: nat :: k < j < c ==> Size(f, j) <= Size(f, k)
  {
    var x := LastIsMax(f, c);
    RecordIn(f, k, c);
    SameNode(f, x, k);
  }

  /** Up to the next record everything is smaller than that, also after the change. */
  lemma SmallerBefore(f: FreeList, g: FreeList, k: nat, c: nat, d: nat)
    requires k < c < |f.blocks| && d <= 1 && SameTail(f, g, c, d) && Size(f, c) > Max(f, c)
    requires forall j: nat :: j < c - d ==> Size(g, j) <= Size(f, if d == 0 || j < k then j else j + d)
    ensures Size(f, c) > Max(g, c - d)
  {
    forall j: nat | j < c - d ensures Size(g, j) < Size(f, c) {
      MaxBound(f, c, if d == 0 || j < k then j else j + d);
    }
    MaxBelow(g, c - d, Size(f, c));
  }

  /** The last block the table covers is a record. */
  ghost predicate TableEnd(g: FreeList, m: nat) {
    0 < m <= |g.blocks| && Size(g, m - 1) > Max(g, m - 1)
  }

  lemma TableEndStays(f: FreeList, g: FreeList, c: nat, d: nat, n: nat)
    requires SameTail(f, g, c, d) && c < n <= |f.blocks| && Size(f, c) > Max(f, c) && Size(f, c) > Max(g, c - d)
             && Size(f, n - 1) > Max(f, n - 1)
    ensures TableEnd(g, n - d)
  {
    assert g.blocks[n - 1 - d] == f.blocks[n - 1];
    if n - 1 > c { TailMax(f, g, c, d, n - 1); }
  }

  /** `beyond` keeps its meaning when a block that the table covers, but not the last one, changes. */
  lemma BeyondStays(f: FreeList, g: FreeList, beyond: Addr, n: nat, b: nat, c: nat, d: nat)
    requires BeyondOk(f, beyond, n, b) && SameTail(f, g, c, d) && c < n && c <= n - 1
    ensures n - d >= 0 && BeyondOk(g, beyond, n - d, if beyond == 0 then 0 else b - d)
  {
    if beyond != 0 {
      assert g.blocks[b - d] == f.blocks[b] && g.blocks[n - 1 - d] == f.blocks[n - 1];
      forall j: nat | n - d <= j <= b - d ensures Size(g, j) <= Size(g, n - 1 - d) {
        assert f.blocks[j + d] == g.blocks[j + d - d];
      }
    }
  }

  lemma WithoutTail(f: FreeList, k: nat)
    requires ListOk(f) && k < |f.blocks|
    ensures ListOk(Without(f, k)) && SameUpTo(f, Without(f, k), k) && SameTail(f, Without(f, k), k + 1, 1)
  {
    WithoutOk(f, k);
    var g := Without(f, k);
    forall m: nat | k + 1 <= m < |f.blocks| ensures g.blocks[m - 1] == f.blocks[m] && Size(g, m - 1) == Size(f, m) {
      var j: nat := m - 1;
      assert g.blocks[j] == f.blocks[j + 1];
    }
  }

  lemma CarvedOk(f: FreeList, k: nat, wo: nat)
    requires ListOk(f) && k < |f.blocks| && wo > 0 && Size(f, k) >= wo
    ensures ListOk(Carved(f, k, wo)) && SameUpTo(f, Carved(f, k, wo), k)
            && SameTail(f, Carved(f, k, wo), k + 1, if Size(f, k) < wo + 2 then 1 else 0)
    ensures Total(Carved(f, k, wo), |Carved(f, k, wo).blocks|) == Total(f, |f.blocks|) - if Size(f, k) < wo + 2 then Size(f, k) + 1 else wo + 1
  {
    if Size(f, k) < wo + 2 {
      WithoutTail(f, k);
      TotalWithout(f, k);
    } else {
      ReducedOk(f, k, Size(f, k) - (wo + 1));
      TotalReduced(f, k, Size(f, k) - (wo + 1));
    }
  }

  lemma MergeStays(f: FreeList, k: nat, wo: nat, merge: Addr)
    requires ListOk(f) && k < |f.blocks| && wo > 0 && Size(f, k) >= wo && IsNode(f, merge)
    ensures IsNode(Carved(f, k, wo), if Size(f, k) < wo + 2 && merge == f.blocks[k] then Node(f, k) else merge)
  {
    var g := Carved(f, k, wo);
    var x: nat :| x <= |f.blocks| && merge == Node(f, x);
    if Size(f, k) < wo + 2 {
      WithoutOk(f, k);
      SameNode(f, x, k + 1);
      var y := if x <= k then x else x - 1;
      if x > k + 1 { assert g.blocks[y - 1] == f.blocks[x - 1]; }
      assert Node(g, if x == k + 1 then k else y) == if x == k + 1 then Node(f, k) else merge;
    } else {
      assert Node(g, x) == merge;
    }
  }

  class Policy {
    const head: Addr
    var next: map<Addr, Addr>
    var size: map<Addr, nat>
    var flp: seq<Addr>
    var beyond: Addr
    var merge: Addr
    var last: Addr
    var lastFragment: Addr
    var curWsz: int
    ghost var blocks: seq<Addr>

    ghost function F(): FreeList
      reads this`blocks, this`size
    {
      FreeList(head, blocks, size)
    }

    ghost predicate Base()
      reads this`blocks, this`size, this`next, this`curWsz, this`merge
    {
      ListOk(F()) && Linked(next, F()) && curWsz == Total(F(), |blocks|) && IsNode(F(), merge)
    }

    ghost predicate Valid()
      reads this
    {
      Base() && IndexOk(F(), flp, beyond)
    }

    /** ff_init */
    constructor (head: Addr)
      requires head > 0
      ensures Valid() && this.head == head && blocks == [] && curWsz == 0 && merge == head && lastFragment == 0
    {
      this.head, next, size, flp, beyond := head, map[head := 0], map[], [], 0;
      merge, last, lastFragment, curWsz, blocks := head, 0, 0, 0, [];
      new;
      assert head == Node(F(), 0) && IsNode(F(), merge);
      assert TableOk(F(), [], 0) && BeyondOk(F(), 0, 0, 0);
    }

    /** The search in the flp array. */
    method SearchTable(wo: nat, ghost n: nat) returns (i: nat, ghost k: nat)
      requires Base() && TableOk(F(), flp, n) && wo > 0
      ensures i == |flp| ==> Max(F(), n) < wo && forall j: nat :: j < n ==> Size(F(), j) < wo
      ensures i <= |flp| && (i < |flp| ==> k < n && k < |blocks| && FirstFit(F(), wo, 0) == k && flp[i] == Node(F(), k) && |Records(F(), k)| == i
                                           && Size(F(), k) > Max(F(), k) && Size(F(), k) >= wo && flp[..i] == Records(F(), k))
    {
      i, k := 0, 0;
      ghost var f := F();
      while i < |flp|
        invariant 0 <= i <= |flp| && SmallerThan(f, flp, i, wo)
      {
        k := FoundInTable(f, n, i, wo);
        assert next[flp[i]] == blocks[k];
        assert BlockOk(f, k);
        var sz := size[next[flp[i]]];
        if sz >= wo { return; }
        SmallerAlso(f, flp, i, wo, k);
        i := i + 1;
      }
      NotInTable(f, n, wo);
    }

    /** ff_allocate_block: what is left of block `k`, whose entry is `flpi`. */
    method AllocateBlock(wo: nat, flpi: nat, prev: Addr, cur: Addr, ghost k: nat) returns (h: int)
      requires Base() && wo > 0 && k < |blocks| && prev == Node(F(), k) && cur == blocks[k] && Size(F(), k) >= wo
      modifies this
      ensures Base() && F() == Carved(old(F()), k, wo) && h == cur + Size(old(F()), k) - (wo + 1)
      ensures last == old(last)
      ensures merge == if Size(old(F()), k) < wo + 2 && old(merge) == cur then prev else old(merge)
      ensures if Size(old(F()), k) >= wo + 2 then flp == old(flp) && beyond == old(beyond)
              else if flpi + 1 < |old(flp)| && old(flp)[flpi + 1] == cur then flp == old(flp)[flpi + 1 := prev] && beyond == old(beyond)
              else if flpi + 1 == |old(flp)| then flp == old(flp)[..flpi] && beyond == (if prev == head then 0 else prev)
              else flp == old(flp) && beyond == old(beyond)
    {
      var sz := Carve(wo, prev, cur, k);
      if sz < wo + 2 {
        if flpi + 1 < |flp| && flp[flpi + 1] == cur {
          flp := flp[flpi + 1 := prev];
        } else if flpi + 1 == |flp| {
          beyond := if prev == head then 0 else prev;
          flp := flp[..|flp| - 1];
        }
      }
      h := cur + sz - (wo + 1);
    }

    /** The list without block `k`, or with that block reduced; returns its old size. */
    method Carve(wo: nat, prev: Addr, cur: Addr, ghost k: nat) returns (sz: nat)
      requires Base() && wo > 0 && k < |blocks| && prev == Node(F(), k) && cur == blocks[k] && Size(F(), k) >= wo
      modifies this`next, this`size, this`merge, this`curWsz, this`blocks
      ensures Base() && F() == Carved(old(F()), k, wo) && sz == Size(old(F()), k)
      ensures merge == if Size(old(F()), k) < wo + 2 && old(merge) == cur then prev else old(merge)
    {
      ghost var f := F();
      assert BlockOk(f, k);
      CarvedOk(f, k, wo);
      MergeStays(f, k, wo, merge);
      sz := size[cur];
      if sz < wo + 2 {
        curWsz := curWsz - (sz + 1);
        Detach(prev, cur, k);
      } else {
        LinkedReduced(next, f, k, sz - (wo + 1));
        curWsz := curWsz - (wo + 1);
        size := size[cur := sz - (wo + 1)];
      }
      ghost var g := Carved(f, k, wo);
      assert F() == g && |blocks| == |g.blocks|;
    }

    /** Block `k` leaves the list, which takes caml_fl_merge along. */
    method Detach(prev: Addr, cur: Addr, ghost k: nat)
      requires ListOk(F()) && Linked(next, F()) && k < |blocks| && prev == Node(F(), k) && cur == blocks[k]
      modifies this`next, this`size, this`merge, this`blocks
      ensures ListOk(F()) && Linked(next, F()) && F() == Without(old(F()), k)
      ensures merge == if old(merge) == cur then prev else old(merge)
    {
      if merge == cur { merge := prev; }
      Unlink(prev, cur, k);
    }

    method Unlink(prev: Addr, cur: Addr, ghost k: nat)
      requires ListOk(F()) && Linked(next, F()) && k < |blocks| && prev == Node(F(), k) && cur == blocks[k]
      modifies this`next, this`size, this`blocks
      ensures ListOk(F()) && Linked(next, F()) && F() == Without(old(F()), k)
    {
      assert BlockOk(F(), k);
      WithoutTail(F(), k);
      LinkedWithout(next, F(), k);
      next := next[prev := next[cur]];
      size := size[cur := 0];
      blocks := blocks[..k] + blocks[k + 1..];
    }

    // -------------------------------------------------------------- update_flp

    /** The last record became smaller: it stays in the table or goes. */
    method UpdateLast(ghost k: nat)
      requires Base() && flp != [] && k < |blocks| && flp[..|flp| - 1] == Records(F(), k)
               && flp[|flp| - 1] == Node(F(), k)
      modifies this`flp, this`beyond
      ensures IndexOk(F(), flp, beyond)
    {
      ghost var f := F();
      var i := |flp| - 1;
      var prevsz := SizeBefore(i, k);
      assert BlockOk(f, k) && next[flp[i]] == blocks[k];
      if size[next[flp[i]]] <= prevsz {
        beyond := next[flp[i]];
        flp := flp[..i];
        DropLast(f, k, beyond, k);
      } else {
        assert flp == Records(f, k + 1);
        beyond := 0;
        assert TableOk(f, flp, k + 1) && BeyondOk(f, beyond, k + 1, 0);
      }
    }

    /** prevsz: the size of the record before entry `i`, which is the largest block before. */
    method SizeBefore(i: nat, ghost k: nat) returns (prevsz: nat)
      requires Base() && i < |flp| && k < |blocks| && flp[..i] == Records(F(), k)
      ensures prevsz == Max(F(), k)
    {
      if i > 0 {
        ghost var x := LastIsMax(F(), k);
        assert flp[i - 1] == flp[..i][i - 1] == Node(F(), x) && BlockOk(F(), x);
        prevsz := size[next[flp[i - 1]]];
      } else {
        if k > 0 { ghost var x := LastIsMax(F(), k); }
        prevsz := 0;
      }
    }

    /** A record in the middle of the table was taken out or became smaller: the records up to the next
        entry are collected anew. */
    method UpdateMiddle(i: nat, oldsz: nat, ghost k: nat, ghost c: nat, ghost m: nat)
      requires Base() && Gap(F(), flp, i, k, c, m, oldsz) && |Records(F(), m)| <= FLP_MAX
      modifies this`flp
      ensures flp == Records(F(), m)
    {
      ghost var f, x, table := F(), k, flp;
      var prevsz := SizeBefore(i, k);
      var buf: seq<Addr> := [];
      var prev := flp[i];
      var found := false;
      while !found && prev != flp[i + 1] && |buf| < FLP_MAX - i
        invariant flp == table && k <= x <= c && Records(f, x) == flp[..i] + buf && prevsz == Max(f, x)
        invariant if found then prevsz >= oldsz else prev == Node(f, x)
        decreases c - x, !found
      {
        if x == c { SameNode(f, c, c); }
        var cur := next[prev];
        assert x < c && BlockOk(f, x);
        var sz := size[cur];
        if sz > prevsz {
          assert flp[..i] + (buf + [prev]) == flp[..i] + buf + [prev];
          buf := buf + [prev];
          prevsz := sz;
          if sz >= oldsz { found := true; }
        }
        prev := cur;
        x := x + 1;
      }
      RoomInTable(f, x, c, m, flp[i + 1..]);
      if !found { SameNode(f, x, c); }
      Flat(f, x, c);
      flp := flp[..i] + buf + flp[i + 1..];
    }

    /** ff_allocate_block and update_flp, once the entry `i` of the first block that fits is known. */
    method Take(i: nat, wo: nat, ghost k: nat, ghost n: nat, ghost b: nat) returns (h: int)
      requires Base() && wo > 0 && EntryOf(F(), flp, n, i, k) && Size(F(), k) >= wo && FirstFit(F(), wo, 0) == k
      requires i + 1 == |flp| || (BeyondOk(F(), beyond, n, b) && Fits(F(), k, wo, n))
      modifies this
      ensures Valid() && AllocatedBy(old(F()), F(), wo, Some(h))
    {
      ghost var f, table := F(), flp;
      assert BlockOk(f, k) && next[Node(f, k)] == blocks[k];
      var prev := flp[i];
      var cur := next[prev];
      var sz := size[cur];
      h := AllocateBlock(wo, i, prev, cur, k);
      if i < |flp| {
        UpdateFlp(i, sz, wo, f, table, k, n, b);
      } else {
        LastRemoved(f, table, n, i, k, wo);
      }
    }

    /** update_flp: block `k` of entry `i` was taken out or reduced. */
    method UpdateFlp(i: nat, sz: nat, ghost wo: nat, ghost f: FreeList, ghost table: seq<Addr>, ghost k: nat,
        ghost n: nat, ghost b: nat)
      requires Base() && ListOk(f) && wo > 0 && EntryOf(f, table, n, i, k) && sz == Size(f, k) >= wo
               && F() == Carved(f, k, wo)
      requires i + 1 == |table| || (BeyondOk(f, beyond, n, b) && Fits(f, k, wo, n))
      requires if i + 1 < |table| then flp == TableAfter(f, table, i, k, wo) else sz >= wo + 2 && flp == table
      modifies this`flp, this`beyond
      ensures IndexOk(F(), flp, beyond)
    {
      if i == |flp| - 1 {
        LastReduced(f, table, n, i, k, wo);
        UpdateLast(k);
      } else {
        ghost var c, m := CarvedGap(f, F(), table, flp, n, i, k, wo);
        CarvedTail(f, F(), k, wo, n - m);
        UpdateInside(i, sz, f, k, c, m, n, b);
      }
    }

    method UpdateInside(i: nat, sz: nat, ghost f: FreeList, ghost k: nat, ghost c: nat, ghost m: nat, ghost n: nat,
        ghost b: nat)
      requires Base() && Gap(F(), flp, i, k, c, m, sz) && TableEnd(F(), m) && |Records(F(), m)| <= FLP_MAX
      requires k + 1 < n && m <= n && SameTail(f, F(), k + 1, n - m) && BeyondOk(f, beyond, n, b)
      modifies this`flp
      ensures IndexOk(F(), flp, beyond)
    {
      UpdateMiddle(i, sz, k, c, m);
      IndexFromTail(f, F(), flp, beyond, n, b, k + 1, n - m);
    }

    // -------------------------------------------------------------- ff_allocate

    /** Extends the flp array: from `beyond`, or from the last record, to the first block that fits. */
    method ExtendTable(wo: nat, ghost n: nat, ghost b: nat) returns (found: bool, ghost k: nat)
      requires Base() && wo > 0 && TableOk(F(), flp, n) && BeyondOk(F(), beyond, n, b) && Max(F(), n) < wo
      requires Extends(F(), wo)
      modifies this`flp, this`beyond, this`last
      ensures found ==> k < |blocks| && FirstFit(F(), wo, 0) == k && Size(F(), k) >= wo && |flp| > 0 && EntryOf(F(), flp, k + 1, |flp| - 1, k)
      ensures !found ==> FirstFit(F(), wo, 0) == |blocks| && Complete()
    {
      ghost var f := F();
      var prev, prevsz, x := StartOfScan(n, b);
      var cur := prev;
      while |flp| < FLP_MAX
        invariant x <= |blocks| && prev == Node(f, x) && flp == Records(f, x) && prevsz == Max(f, x) < wo
        decreases |blocks| - x
      {
        cur := next[prev];
        assert x < |blocks| ==> BlockOk(f, x);
        if cur == 0 {
          last := prev;
          beyond := if prev == head then 0 else prev;
          found, k := false, 0;
          NoneFits(f, wo);
          return;
        }
        var sz := size[cur];
        if sz > prevsz {
          flp := flp + [prev];
          if sz >= wo {
            beyond := cur;
            found, k := true, x;
            FitsHere(f, x, wo);
            return;
          }
          prevsz := sz;
        }
        prev := cur;
        x := x + 1;
      }
      ScanHasRoom(f, x, wo);
      assert false;
    }

    /** Where the extension starts. */
    method StartOfScan(ghost n: nat, ghost b: nat) returns (prev: Addr, prevsz: nat, ghost x: nat)
      requires Base() && TableOk(F(), flp, n) && BeyondOk(F(), beyond, n, b)
      ensures n <= x <= |blocks| && prev == Node(F(), x) && flp == Records(F(), x)
              && prevsz == Max(F(), x) == Max(F(), n)
    {
      ghost var f := F();
      x := n;
      if n > 0 { LastEntry(f, n); }
      if flp == [] {
        prev, prevsz := head, 0;
      } else {
        assert BlockOk(f, n - 1) && next[Node(f, n - 1)] == blocks[n - 1];
        prev := next[flp[|flp| - 1]];
        prevsz := size[prev];
        if beyond != 0 {
          prev := beyond;
          x := b + 1;
          Flat(f, n, x);
        }
      }
    }

    /** After an allocation that failed: the table is complete, and `last` is the last node. */
    ghost predicate Complete()
      reads this
    {
      flp == Records(F(), |blocks|) && last == Node(F(), |blocks|) && beyond == if |blocks| == 0 then 0 else last
    }

    /** ff_allocate.  It finds the block that the naive search finds, and nothing exactly when no block
        fits; what is left of that block is what the naive allocation leaves. */
    method Allocate(wo: nat) returns (h: Option<int>)
      requires Base() && wo >= 1 && (IndexOk(F(), flp, beyond) || ExtendedFor(F(), flp, wo))
      requires RoomFor(F(), flp, wo)
      modifies this
      ensures Valid() && AllocatedBy(old(F()), F(), wo, h)
      ensures h.None? ==> curWsz == old(curWsz) && merge == old(merge) && Complete()
    {
      ghost var n, b := IndexWitness(F(), flp, beyond, wo);
      var i; ghost var k;
      i, k := SearchTable(wo, n);
      if i < |flp| {
        OnlyLast(F(), flp, beyond, wo, n, b, i, k);
        var r := Take(i, wo, k, n, b);
        h := Some(r);
      } else {
        StillIndex(F(), flp, beyond, wo, n, b);
        NotCovered(F(), n, wo);
        h := AllocateBeyond(wo, n, b);
      }
    }

    /** The part of ff_allocate that extends the table. */
    method AllocateBeyond(wo: nat, ghost n: nat, ghost b: nat) returns (h: Option<int>)
      requires Base() && wo > 0 && TableOk(F(), flp, n) && BeyondOk(F(), beyond, n, b) && Max(F(), n) < wo
               && Extends(F(), wo)
      modifies this
      ensures Valid() && AllocatedBy(old(F()), F(), wo, h)
      ensures h.None? ==> curWsz == old(curWsz) && merge == old(merge) && Complete()
    {
      var found; ghost var k;
      found, k := ExtendTable(wo, n, b);
      if found {
        var r := Take(|flp| - 1, wo, k, k + 1, 0);
        h := Some(r);
      } else {
        CompleteIsIndex(F(), flp, beyond);
        h := None;
      }
    }

    // -------------------------------------------------------------- ff_merge_block

    /** ff_init_merge */
    method InitMerge()
      requires Base() && IndexOk(F(), flp, beyond)
      modifies this`merge, this`lastFragment
      ensures Valid() && merge == head && lastFragment == 0
    {
      lastFragment := 0;
      merge := head;
      assert head == Node(F(), 0);
      assert IsNode(F(), merge);
    }

    /** ff_truncate_flp keeps the first `t` entries. */
    method TruncateFlp(changed: Addr) returns (ghost t: nat)
      requires forall e :: e in flp ==> e in next
      modifies this`flp, this`beyond
      ensures t <= |old(flp)| && flp == old(flp)[..t]
      ensures if changed == head then t == 0 && beyond == 0
              else (t > 0 ==> next[old(flp)[t - 1]] < changed) && (t < |old(flp)| ==> next[old(flp)[t]] >= changed)
                   && beyond == if old(beyond) >= changed then 0 else old(beyond)
    {
      t := |flp|;
      if changed == head {
        flp, beyond, t := [], 0, 0;
      } else {
        while |flp| > 0 && next[flp[|flp| - 1]] >= changed
          invariant beyond == old(beyond) && t == |flp| <= |old(flp)| && flp == old(flp)[..t]
                    && forall e :: e in flp ==> e in next
          invariant t < |old(flp)| ==> next[old(flp)[t]] >= changed
        {
          flp := flp[..|flp| - 1];
          t := t - 1;
        }
        if beyond >= changed { beyond := 0; }
      }
    }

    /** The index is cut back to what lies before the last node that the sweep has reached. */
    method TruncateAt(ghost m: nat)
      requires ListOk(F()) && Linked(next, F()) && IndexOk(F(), flp, beyond) && m <= |blocks| && merge == Node(F(), m)
      modifies this`flp, this`beyond
      ensures IndexBelow(F(), flp, beyond, if m == 0 then 0 else m - 1)
    {
      ghost var f, flp0, beyond0 := F(), flp, beyond;
      ghost var n: nat, b: nat :| TableOk(f, flp, n) && BeyondOk(f, beyond, n, b);
      EntriesLinked(f, next, flp, n);
      ghost var t := TruncateFlp(merge);
      CutBelow(f, next, flp0, beyond0, n, b, t, m);
    }

    /** If `bp` and the next free block are adjacent, they are merged; returns the new size. */
    method JoinNext(bp: Addr, sz: nat, ghost m: nat) returns (sz': nat)
      requires ListOk(F()) && Linked(next, F()) && FitsBetween(F(), m, bp, sz) && merge == Node(F(), m)
      modifies this`next, this`size, this`blocks
      ensures ListOk(F()) && Linked(next, F()) && FitsBetween(F(), m, bp, sz') && merge == Node(F(), m)
      ensures JoinedNext(old(F()), F(), m, bp, sz, sz')
    {
      sz' := sz;
      var cur := next[merge];
      if cur == bp + sz + 1 {
        assert m < |blocks| && BlockOk(F(), m);
        if sz + (size[cur] + 1) <= MAX_WOSIZE {
          sz' := sz + (size[cur] + 1);
          WithoutFits(F(), m, bp, sz);
          Unlink(merge, cur, m);
        }
      }
    }

    /** If the node before and `bp` are adjacent they are merged; else `bp` is linked in, or remembered if
        it is a fragment. */
    method LeaveBlock(bp: Addr, sz: nat, ghost m: nat)
      requires ListOk(F()) && Linked(next, F()) && FitsBetween(F(), m, bp, sz) && merge == Node(F(), m)
               && bp != head + 1
      requires IndexBelow(F(), flp, beyond, if m == 0 then 0 else m - 1) && curWsz == Total(F(), |blocks|) + sz + 1
      modifies this`next, this`size, this`blocks, this`merge, this`curWsz, this`lastFragment
      ensures Valid() && Left(old(F()), F(), old(merge), merge, old(lastFragment), lastFragment, bp, sz, m)
    {
      assert m > 0 ==> BlockOk(F(), m - 1);
      var prevsz := if merge == head then 0 else size[merge];
      if merge + prevsz + 1 == bp && prevsz + (sz + 1) < MAX_WOSIZE {
        GrowBlock(prevsz + (sz + 1), m - 1);
      } else if sz != 0 {
        InsertBlock(bp, sz, m);
      } else {
        lastFragment := bp;
        curWsz := curWsz - 1;
        IndexFromBelow(F(), F(), flp, beyond, if m == 0 then 0 else m - 1);
      }
    }

    method GrowBlock(sz: nat, ghost k: nat)
      requires ListOk(F()) && Linked(next, F()) && k < |blocks| && merge == blocks[k] && Size(F(), k) <= sz
      requires k + 1 < |blocks| ==> blocks[k] + sz < blocks[k + 1]
      requires IndexBelow(F(), flp, beyond, k) && curWsz == Total(F(), |blocks|) + (sz - Size(F(), k))
      modifies this`size
      ensures Valid() && F() == Reduced(old(F()), k, sz)
    {
      GrownOk(F(), k, sz);
      LinkedReduced(next, F(), k, sz);
      IndexFromBelow(F(), Reduced(F(), k, sz), flp, beyond, k);
      size := size[merge := sz];
      assert merge == Node(F(), k + 1);
    }

    method InsertBlock(bp: Addr, sz: nat, ghost m: nat)
      requires ListOk(F()) && Linked(next, F()) && FitsBetween(F(), m, bp, sz) && merge == Node(F(), m) && sz > 0
      requires IndexBelow(F(), flp, beyond, if m == 0 then 0 else m - 1) && curWsz == Total(F(), |blocks|) + sz + 1
      modifies this`next, this`size, this`blocks, this`merge
      ensures Valid() && F() == Inserted(old(F()), m, bp, sz) && merge == bp
    {
      ghost var g := Inserted(F(), m, bp, sz);
      InsertedGood(next, F(), flp, beyond, m, bp, sz, g);
      size := size[bp := sz];
      next := next[bp := next[merge]][merge := bp];
      merge := bp;
      blocks := g.blocks;
    }

    /** ff_merge_block: the block at `bp0` of `sz0` words, which the sweep has found dead, joins the free
        list, together with a fragment just before it and the free blocks next to it; a block without
        fields that touches neither a free block nor a fragment stays outside as a fragment itself.
        One block of the list covers the result, and no free blocks touch that did not before, unless they are
        too large to be joined.  The sweep goes on at `adj`, where the rest of the list is as it was. */
    method MergeBlock(bp0: Addr, sz0: nat, ghost m: nat) returns (adj: Addr, ghost fragment: bool, ghost m1: nat)
      requires Valid() && SweptAt(F(), merge, lastFragment, bp0, sz0, m)
      modifies this
      ensures Valid() && Merged(old(F()), F(), old(lastFragment), bp0, sz0, fragment)
      ensures SeamsAfter(old(F()), F(), bp0) && (if fragment then Lone(F(), bp0) else Covers(F(), bp0 - 1, bp0 + sz0))
      ensures Onward(old(F()), F(), m, bp0 + sz0, adj, m1) && merge == Node(F(), m1)
      ensures lastFragment == if fragment then bp0 else old(lastFragment)
    {
      curWsz := curWsz + (sz0 + 1);
      TruncateAt(m);
      if lastFragment == bp0 - 1 && sz0 + 1 <= MAX_WOSIZE {
        curWsz := curWsz + 1;
        adj, fragment, m1 := JoinAround(lastFragment, sz0 + 1, m, bp0);
      } else {
        adj, fragment, m1 := JoinAround(bp0, sz0, m, bp0);
      }
    }

    /** The block of `sz` words at `bp`, which is counted already, joins the free blocks next to it. */
    method JoinAround(bp: Addr, sz: nat, ghost m: nat, ghost bp0: Addr) returns (adj: Addr, ghost fragment: bool, ghost m1: nat)
      requires ListOk(F()) && Linked(next, F()) && FitsBetween(F(), m, bp, sz) && merge == Node(F(), m)
               && bp != head + 1 && bp <= bp0 <= bp + sz
      requires IndexBelow(F(), flp, beyond, if m == 0 then 0 else m - 1) && curWsz == Total(F(), |blocks|) + sz + 1
      modifies this`next, this`size, this`blocks, this`merge, this`curWsz, this`lastFragment
      ensures Valid() && Onward(old(F()), F(), m, bp + sz, adj, m1) && merge == Node(F(), m1)
      ensures SeamsAfter(old(F()), F(), bp0) && (if fragment then Lone(F(), bp) else Covers(F(), bp - 1, bp + sz))
      ensures if fragment then sz == 0 && F() == old(F()) && lastFragment == bp
              else Freed(old(F()), F(), bp - 1, bp + sz) && lastFragment == old(lastFragment)
    {
      ghost var f, merge1, frag := F(), merge, lastFragment;
      var sz1 := JoinNext(bp, sz, m);
      ghost var g := F();
      NextJoined(f, g, flp, beyond, if m == 0 then 0 else m - 1, m, bp, sz, sz1);
      adj := bp + sz1;
      LeaveBlock(bp, sz1, m);
      fragment := LeftWhat(g, F(), merge1, merge, frag, lastFragment, bp, sz1, m);
      WhatJoined(f, g, F(), bp, sz, sz1, fragment);
      m1 := WhereJoined(f, g, F(), merge1, merge, frag, lastFragment, m, bp, sz, sz1, bp0);
    }

    // -------------------------------------------------------------- ff_add_blocks

    /** ff_add_blocks: the heap has grown by the blocks `bs`, chained from `bp` to `end`, because a request of
        `wo` words could not be met.  `below` tells whether they lie below the sweep pointer. */
    method AddBlocks(bp: Addr, end: Addr, below: bool, ghost bs: seq<Addr>, ghost wo: nat, ghost p: nat)
      requires Valid() && Complete()
      requires ChainFits(F(), next, bs, p, bp, end) && Max(F(), |blocks|) < wo <= Size(Spliced(F(), bs, p), p)
      modifies this
      ensures Base() && F() == Spliced(old(F()), bs, p)
      ensures IndexOk(F(), flp, beyond) || ExtendedFor(F(), flp, wo)
    {
      SplicedTotal(F(), bs, p);
      LastBefore(F(), bs, p);
      CountChain(bp, bs, p);
      if bp > last {
        AddAtEnd(bp, end, below, bs, wo);
      } else {
        AddInside(bp, end, below, bs, p);
      }
    }

    method AddAtEnd(bp: Addr, end: Addr, below: bool, ghost bs: seq<Addr>, ghost wo: nat)
      requires ListOk(F()) && Linked(next, F()) && IsNode(F(), merge) && Complete() && IndexOk(F(), flp, beyond)
      requires ChainFits(F(), next, bs, |blocks|, bp, end)
               && Max(F(), |blocks|) < wo <= Size(Spliced(F(), bs, |blocks|), |blocks|)
      modifies this`next, this`merge, this`flp, this`blocks
      ensures F() == Spliced(old(F()), bs, |old(blocks)|) && Linked(next, F()) && IsNode(F(), merge)
      ensures IndexOk(F(), flp, beyond) || ExtendedFor(F(), flp, wo)
      ensures IndexOk(F(), flp, beyond) <==> old(blocks) == [] || |old(flp)| >= FLP_MAX
    {
      IndexedAtEnd(F(), bs, flp, beyond, wo, Spliced(F(), bs, |blocks|));
      var node := last;
      LinkAtEnd(bp, end, below, bs);
      if |flp| < FLP_MAX {
        flp := flp + [node];
      }
    }

    method LinkAtEnd(bp: Addr, end: Addr, below: bool, ghost bs: seq<Addr>)
      requires ListOk(F()) && Linked(next, F()) && IsNode(F(), merge) && last == Node(F(), |blocks|)
      requires ChainFits(F(), next, bs, |blocks|, bp, end)
      modifies this`next, this`merge, this`blocks
      ensures F() == Spliced(old(F()), bs, |old(blocks)|) && Linked(next, F()) && IsNode(F(), merge)
    {
      ghost var g := Spliced(F(), bs, |blocks|);
      ChainedAtEnd(F(), next, bs, merge, if last == merge && below then end else merge, g);
      next := next[last := bp];
      if last == merge && below { merge := end; }
      blocks := g.blocks;
    }

    method AddInside(bp: Addr, end: Addr, below: bool, ghost bs: seq<Addr>, ghost p: nat)
      requires ListOk(F()) && Linked(next, F()) && IsNode(F(), merge) && IndexOk(F(), flp, beyond) && bp != head
      requires ChainFits(F(), next, bs, p, bp, end)
      modifies this`next, this`merge, this`flp, this`beyond, this`blocks
      ensures F() == Spliced(old(F()), bs, p) && Linked(next, F()) && IsNode(F(), merge) && IndexOk(F(), flp, beyond)
    {
      ghost var f, flp0, beyond0 := F(), flp, beyond;
      ghost var n: nat, b: nat :| TableOk(f, flp, n) && BeyondOk(f, beyond, n, b);
      EntriesLinked(f, next, flp, n);
      LinkInside(bp, end, below, bs, p);
      ghost var t := TruncateFlp(bp);
      SplicedIndex(f, next, flp0, beyond0, bs, p, n, b, t);
    }

    method LinkInside(bp: Addr, end: Addr, below: bool, ghost bs: seq<Addr>, ghost p: nat)
      requires ListOk(F()) && Linked(next, F()) && IsNode(F(), merge) && ChainFits(F(), next, bs, p, bp, end)
      modifies this`next, this`merge, this`blocks
      ensures F() == Spliced(old(F()), bs, p) && Linked(next, F()) && IsNode(F(), merge)
      ensures old(next).Keys <= next.Keys
    {
      var prev, cur := FindPlace(bp, bs, p);
      SplicedLinks(F(), next, bs, p);
      SplicedNodes(F(), bs, p, merge, if prev == merge && below then end else merge);
      next := next[end := cur][prev := bp];
      if prev == merge && below { merge := end; }
      blocks := Spliced(F(), bs, p).blocks;
    }

    /** The sizes of the new blocks are added up. */
    method CountChain(bp: Addr, ghost bs: seq<Addr>, ghost p: nat)
      requires p <= |blocks| && ChainLinked(next, bs) && bp == bs[0] && ListOk(Spliced(F(), bs, p))
      modifies this`curWsz
      ensures var g := Spliced(F(), bs, p); curWsz == old(curWsz) + (Total(g, p + |bs|) - Total(g, p))
    {
      ghost var i, g := 0, Spliced(F(), bs, p);
      var cur := bp;
      while cur != 0
        invariant i <= |bs| && cur == if i < |bs| then bs[i] else 0
        invariant curWsz == old(curWsz) + (Total(g, p + i) - Total(g, p))
        decreases |bs| - i
      {
        assert g.blocks[p + i] == bs[i] && BlockOk(g, p + i);
        curWsz := curWsz + (size[cur] + 1);
        cur := next[cur];
        i := i + 1;
        assert i < |bs| ==> g.blocks[p + i] == bs[i] && BlockOk(g, p + i);
      }
    }

    /** The nodes between which the new blocks go. */
    method FindPlace(bp: Addr, ghost bs: seq<Addr>, ghost p: nat) returns (prev: Addr, cur: Addr)
      requires ListOk(F()) && Linked(next, F()) && p <= |blocks| && |bs| > 0 && bp == bs[0]
               && ListOk(Spliced(F(), bs, p))
      ensures prev == Node(F(), p) && cur == if p < |blocks| then blocks[p] else 0
    {
      ghost var k := 0;
      prev := head;
      assert head == Node(F(), 0);
      cur := next[head];
      while cur != 0 && cur < bp
        invariant k <= p && prev == Node(F(), k) && cur == if k < |blocks| then blocks[k] else 0
        decreases p - k
      {
        SplicedOrder(F(), bs, p, k);
        assert cur == Node(F(), k + 1);
        prev := cur;
        cur := next[prev];
        k := k + 1;
      }
      if k < |blocks| {
        assert BlockOk(F(), k);
        SplicedOrder(F(), bs, p, k);
      }
    }
  }

  // ---------------------------------------------------------------- growing the heap

  /** The list with the blocks `bs` after node `p`. */
  function Spliced(f: FreeList, bs: seq<Addr>, p: nat): FreeList
    requires p <= |f.blocks|
  {
    f.(blocks := f.blocks[..p] + bs + f.blocks[p..])
  }

  ghost predicate ChainLinked(next: map<Addr, Addr>, bs: seq<Addr>) {
    bs != [] && forall i: nat {:trigger bs[i]} :: i < |bs| ==> bs[i] in next && next[bs[i]] == if i + 1 < |bs| then bs[i + 1] else 0
  }

  ghost predicate ChainFits(f: FreeList, next: map<Addr, Addr>, bs: seq<Addr>, p: nat, bp: Addr, end: Addr) {
    p <= |f.blocks| && ChainLinked(next, bs) && bp == bs[0] && end == bs[|bs| - 1] && ListOk(Spliced(f, bs, p))
  }

  lemma SplicedAt(f: FreeList, bs: seq<Addr>, p: nat)
    requires p <= |f.blocks|
    ensures var g := Spliced(f, bs, p);
            && |g.blocks| == |f.blocks| + |bs| && SameUpTo(f, g, p) && SameTail(g, f, p + |bs|, |bs|)
            && (forall i: nat {:trigger bs[i]} :: i < |bs| ==> g.blocks[p + i] == bs[i])
            && (forall x: nat {:trigger f.blocks[x]} :: p <= x < |f.blocks| ==> g.blocks[x + |bs|] == f.blocks[x])
  {
  }

  lemma SplicedTotal(f: FreeList, bs: seq<Addr>, p: nat)
    requires p <= |f.blocks|
    ensures var g := Spliced(f, bs, p); Total(g, |g.blocks|) == Total(f, |f.blocks|) + (Total(g, p + |bs|) - Total(g, p))
  {
    SplicedAt(f, bs, p);
    var g := Spliced(f, bs, p);
    TotalSame(f, g, p);
    TotalShift(g, f, p + |bs|, |bs|, |g.blocks|);
  }

  /** Block `k` lies below the new ones exactly if it comes before them. */
  lemma SplicedOrder(f: FreeList, bs: seq<Addr>, p: nat, k: nat)
    requires p <= |f.blocks| && bs != [] && ListOk(Spliced(f, bs, p)) && k < |f.blocks|
    ensures f.blocks[k] < bs[0] <==> k < p
    ensures f.blocks[k] != bs[0]
  {
    var g := Spliced(f, bs, p);
    SplicedAt(f, bs, p);
    assert g.blocks[p + 0] == bs[0];
    BlockOrder(g, if k < p then k else k + |bs|, p);
    BlockOrder(g, p, if k < p then k else k + |bs|);
  }

  lemma LastBefore(f: FreeList, bs: seq<Addr>, p: nat)
    requires p <= |f.blocks| && bs != [] && ListOk(Spliced(f, bs, p))
    ensures bs[0] > Node(f, |f.blocks|) ==> p == |f.blocks|
  {
    if |f.blocks| > 0 { SplicedOrder(f, bs, p, |f.blocks| - 1); }
  }

  /** The nodes of the longer list. */
  lemma SplicedNode(f: FreeList, bs: seq<Addr>, p: nat, j: nat)
    requires p <= |f.blocks| && bs != [] && j <= |f.blocks| + |bs|
    ensures Node(Spliced(f, bs, p), j) == if j <= p then Node(f, j) else if j <= p + |bs| then bs[j - 1 - p] else Node(f, j - |bs|)
  {
  }

  lemma SplicedLinks(f: FreeList, next: map<Addr, Addr>, bs: seq<Addr>, p: nat)
    requires ListOk(f) && Linked(next, f) && p <= |f.blocks| && ChainLinked(next, bs) && ListOk(Spliced(f, bs, p))
    ensures Linked(next[bs[|bs| - 1] := if p < |f.blocks| then f.blocks[p] else 0][Node(f, p) := bs[0]], Spliced(f, bs, p))
  {
    var g := Spliced(f, bs, p);
    var next' := next[bs[|bs| - 1] := if p < |f.blocks| then f.blocks[p] else 0][Node(f, p) := bs[0]];
    SplicedNode(f, bs, p, p);
    SplicedNode(f, bs, p, p + |bs|);
    forall j: nat | j <= |g.blocks| ensures Node(g, j) in next' && next'[Node(g, j)] == if j < |g.blocks| then g.blocks[j] else 0 {
      SplicedNode(f, bs, p, j);
      SameNode(g, j, p);
      SameNode(g, j, p + |bs|);
      if p < j <= p + |bs| { assert bs[j - 1 - p] in next; } else { assert Node(f, if j <= p then j else j - |bs|) in next; }
    }
  }

  lemma SplicedNodes(f: FreeList, bs: seq<Addr>, p: nat, merge: Addr, merge': Addr)
    requires p <= |f.blocks| && bs != [] && IsNode(f, merge) && (merge' == merge || merge' == bs[|bs| - 1])
    ensures IsNode(Spliced(f, bs, p), merge')
  {
    var g := Spliced(f, bs, p);
    var x: nat :| x <= |f.blocks| && merge == Node(f, x);
    if merge' == merge {
      var y := if x <= p then x else x + |bs|;
      SplicedNode(f, bs, p, y);
      assert merge' == Node(g, y);
    } else {
      SplicedNode(f, bs, p, p + |bs|);
      assert merge' == Node(g, p + |bs|);
    }
  }

  /** Added at the end: the first new block is a record, and the only one that is large enough. */
  lemma ExtendedBy(f: FreeList, bs: seq<Addr>, wo: nat)
    requires bs != [] && Max(f, |f.blocks|) < wo <= Size(Spliced(f, bs, |f.blocks|), |f.blocks|)
    ensures ExtendedFor(Spliced(f, bs, |f.blocks|), Records(f, |f.blocks|) + [Node(f, |f.blocks|)], wo)
  {
    var p := |f.blocks|;
    var g := Spliced(f, bs, p);
    SplicedAt(f, bs, p);
    SamePrefix(f, g, p);
    SplicedNode(f, bs, p, p);
    assert ExtendedAt(g, Records(f, p) + [Node(f, p)], wo, p + 1);
  }

  lemma ChainedAtEnd(f: FreeList, next: map<Addr, Addr>, bs: seq<Addr>, merge: Addr, merge': Addr, g: FreeList)
    requires ListOk(f) && Linked(next, f) && ChainLinked(next, bs) && IsNode(f, merge)
             && (merge' == merge || merge' == bs[|bs| - 1])
    requires g == Spliced(f, bs, |f.blocks|) && ListOk(g)
    ensures Linked(next[Node(f, |f.blocks|) := bs[0]], g) && IsNode(g, merge')
  {
    SplicedLinks(f, next, bs, |f.blocks|);
    SplicedNodes(f, bs, |f.blocks|, merge, merge');
    assert next[bs[|bs| - 1] := 0] == next;
  }

  lemma IndexedAtEnd(f: FreeList, bs: seq<Addr>, flp: seq<Addr>, beyond: Addr, wo: nat, g: FreeList)
    requires ListOk(f) && bs != [] && g == Spliced(f, bs, |f.blocks|) && ListOk(g)
             && Max(f, |f.blocks|) < wo <= Size(g, |f.blocks|)
    requires IndexOk(f, flp, beyond) && flp == Records(f, |f.blocks|)
             && beyond == if f.blocks == [] then 0 else Node(f, |f.blocks|)
    ensures IndexOk(g, flp, beyond)
    ensures ExtendedFor(g, flp + [Node(f, |f.blocks|)], wo)
            && (IndexOk(g, flp + [Node(f, |f.blocks|)], beyond) <==> f.blocks == [])
  {
    ExtendedBy(f, bs, wo);
    FullTableStays(f, bs, flp, beyond);
    IndexAtEnd(f, bs, wo, beyond);
  }

  /** With its new entry the table covers blocks behind `beyond`, unless there was no block before. */
  lemma IndexAtEnd(f: FreeList, bs: seq<Addr>, wo: nat, beyond: Addr)
    requires bs != [] && ListOk(f) && ListOk(Spliced(f, bs, |f.blocks|))
             && beyond == (if f.blocks == [] then 0 else Node(f, |f.blocks|))
    requires Max(f, |f.blocks|) < wo <= Size(Spliced(f, bs, |f.blocks|), |f.blocks|)
    ensures IndexOk(Spliced(f, bs, |f.blocks|), Records(f, |f.blocks|) + [Node(f, |f.blocks|)], beyond) <==> f.blocks == []
  {
    var p := |f.blocks|;
    var g, flp := Spliced(f, bs, p), Records(f, p) + [Node(f, p)];
    SplicedAt(f, bs, p);
    SamePrefix(f, g, p);
    SplicedNode(f, bs, p, p);
    assert TableOk(g, flp, p + 1);
    if p == 0 {
      assert BeyondOk(g, beyond, p + 1, 0);
    } else {
      NoIndex(g, flp, beyond, p);
    }
  }

  lemma NoIndex(g: FreeList, flp: seq<Addr>, beyond: Addr, p: nat)
    requires ListOk(g) && TableOk(g, flp, p + 1) && p > 0 && beyond == Node(g, p)
    ensures !IndexOk(g, flp, beyond)
  {
    assert BlockOk(g, p - 1);
    forall n: nat, b: nat | TableOk(g, flp, n) ensures !BeyondOk(g, beyond, n, b) {
      SameTable(g, flp, n, p + 1);
      if b < |g.blocks| { SameNode(g, b + 1, p); }
    }
  }

  /** The table tells how far it goes. */
  lemma SameTable(f: FreeList, flp: seq<Addr>, n: nat, m: nat)
    requires ListOk(f) && TableOk(f, flp, n) && TableOk(f, flp, m) && m > 0
    ensures n == m
  {
    LastEntry(f, m);
    assert n > 0;
    LastEntry(f, n);
    SameNode(f, n - 1, m - 1);
  }

  /** Why the request that failed has to be repeated at once: after ff_add_blocks, a request that takes the
      whole block before the new ones, where that is a record, leaves `beyond` at a block that is no longer
      in the list. */
  method OtherRequest(p: Policy, wo: nat, ghost n: nat, ghost k: nat) returns (h: int)
    requires p.Base() && TableOk(p.F(), p.flp, n) && n == k + 2 && p.beyond == p.blocks[k]
             && Size(p.F(), k) > Max(p.F(), k)
    requires wo > 0 && FirstFit(p.F(), wo, 0) == k && Size(p.F(), k) < wo + 2 && Fits(p.F(), k, wo, n)
    modifies p
    ensures p.Base() && p.F() == Carved(old(p.F()), k, wo) && p.flp == Records(p.F(), n - 1)
    ensures p.beyond == old(p.blocks)[k] && !IsNode(p.F(), p.beyond)
  {
    ghost var f, table := p.F(), p.flp;
    var i;
    ghost var x;
    i, x := p.SearchTable(wo, n);
    NotLastEntry(f, table, n, k, i);
    assert BlockOk(f, k) && p.next[Node(f, k)] == p.blocks[k];
    var prev := p.flp[i];
    var cur := p.next[prev];
    var sz := p.size[cur];
    h := p.AllocateBlock(wo, i, prev, cur, k);
    ghost var c, m := CarvedGap(f, p.F(), table, p.flp, n, i, k, wo);
    p.UpdateMiddle(i, sz, k, c, m);
    NoLongerNode(f, k);
  }

  lemma NotLastEntry(f: FreeList, flp: seq<Addr>, n: nat, k: nat, i: nat)
    requires TableOk(f, flp, n) && n == k + 2 && Size(f, k) > Max(f, k)
    ensures |Records(f, k)| + 1 < |flp|
    ensures i == |Records(f, k)| ==> EntryOf(f, flp, n, i, k)
  {
    RecordIn(f, k, n);
    TwoRecords(f, k);
  }

  lemma TwoRecords(f: FreeList, k: nat)
    requires k + 1 < |f.blocks| && Size(f, k + 1) > Max(f, k + 1) && Size(f, k) > Max(f, k)
    ensures |Records(f, k + 2)| == |Records(f, k)| + 2
  {
  }

  lemma NoLongerNode(f: FreeList, k: nat)
    requires ListOk(f) && k < |f.blocks|
    ensures !IsNode(Without(f, k), f.blocks[k])
  {
    var g := Without(f, k);
    WithoutOk(f, k);
    assert BlockOk(f, k);
    forall j: nat | j <= |g.blocks| ensures Node(g, j) != f.blocks[k] {
      if j > 0 {
        var y: nat := j - 1;
        assert g.blocks[y] == f.blocks[if y < k then y else y + 1];
        SameNode(f, if y < k then y + 1 else y + 2, k + 1);
      }
    }
  }

  /** A table that is full stays as it is, which is right as well. */
  lemma FullTableStays(f: FreeList, bs: seq<Addr>, flp: seq<Addr>, beyond: Addr)
    requires ListOk(f) && IndexOk(f, flp, beyond)
    ensures IndexOk(Spliced(f, bs, |f.blocks|), flp, beyond)
  {
    var n: nat, b: nat :| TableOk(f, flp, n) && BeyondOk(f, beyond, n, b);
    SplicedAt(f, bs, |f.blocks|);
    IndexStays(f, Spliced(f, bs, |f.blocks|), flp, beyond, n, b, |f.blocks|);
  }

  lemma SplicedIndex(f: FreeList, next: map<Addr, Addr>, flp: seq<Addr>, beyond: Addr, bs: seq<Addr>, p: nat, n: nat,
      b: nat, t: nat)
    requires ListOk(f) && p <= |f.blocks| && bs != [] && ListOk(Spliced(f, bs, p)) && Linked(next, Spliced(f, bs, p))
    requires TableOk(f, flp, n) && BeyondOk(f, beyond, n, b) && t <= |flp| && forall e :: e in flp ==> e in next
    requires (t > 0 ==> next[flp[t - 1]] < bs[0]) && (t < |flp| ==> next[flp[t]] >= bs[0])
    ensures IndexOk(Spliced(f, bs, p), flp[..t], if beyond >= bs[0] then 0 else beyond)
  {
    var g := Spliced(f, bs, p);
    SplicedAt(f, bs, p);
    forall x: nat | x < n && Node(f, x) in next ensures next[Node(f, x)] < bs[0] <==> f.blocks[x] < bs[0] {
      SplicedNext(f, next, bs, p, x);
    }
    var n' := Truncated(f, flp, beyond, n, b, t, bs[0]);
    if n' > 0 { SplicedOrder(f, bs, p, n' - 1); }
    if 0 < beyond < bs[0] { SplicedOrder(f, bs, p, b); }
    IndexStays(f, g, flp[..t], if beyond >= bs[0] then 0 else beyond, n', b, p);
  }

  lemma SplicedNext(f: FreeList, next: map<Addr, Addr>, bs: seq<Addr>, p: nat, x: nat)
    requires p <= |f.blocks| && bs != [] && ListOk(Spliced(f, bs, p)) && Linked(next, Spliced(f, bs, p))
             && x < |f.blocks|
    ensures Node(f, x) in next && (next[Node(f, x)] < bs[0] <==> f.blocks[x] < bs[0])
  {
    var g := Spliced(f, bs, p);
    SplicedAt(f, bs, p);
    SplicedOrder(f, bs, p, x);
    var y := if x <= p then x else x + |bs|;
    SplicedNode(f, bs, p, y);
    assert Node(g, y) in next;
    assert bs[0] == g.blocks[p + 0];
  }

  lemma InsertedGood(next: map<Addr, Addr>, f: FreeList, flp: seq<Addr>, beyond: Addr, m: nat, bp: Addr, sz: nat,
      g: FreeList)
    requires ListOk(f) && Linked(next, f) && FitsBetween(f, m, bp, sz) && sz > 0 && g == Inserted(f, m, bp, sz)
    requires IndexBelow(f, flp, beyond, if m == 0 then 0 else m - 1)
    ensures ListOk(g) && Total(g, |g.blocks|) == Total(f, |f.blocks|) + sz + 1 && IsNode(g, bp)
            && IndexOk(g, flp, beyond)
    ensures Node(f, m) in next && Linked(next[bp := next[Node(f, m)]][Node(f, m) := bp], g)
            && |g.blocks| == |f.blocks| + 1
  {
    InsertedOk(f, m, bp, sz);
    InsertedTotal(f, m, bp, sz);
    LinkedInserted(next, f, m, bp, sz);
    IndexFromBelow(f, g, flp, beyond, if m == 0 then 0 else m - 1);
    assert bp == Node(g, m + 1);
  }

  /** The index stays below block `p`. */
  ghost predicate IndexBelow(f: FreeList, flp: seq<Addr>, beyond: Addr, p: nat) {
    exists n: nat, b: nat :: TableOk(f, flp, n) && BeyondOk(f, beyond, n, b) && n <= p && (beyond != 0 ==> b < p)
  }

  lemma BlockOrder(f: FreeList, i: nat, j: nat)
    requires ListOk(f) && i < |f.blocks| && j < |f.blocks|
    ensures f.blocks[i] < f.blocks[j] <==> i < j
  {
    if i < j { assert Before(f, i, j); }
    if j < i { assert Before(f, j, i); }
  }

  lemma EntriesLinked(f: FreeList, next: map<Addr, Addr>, flp: seq<Addr>, n: nat)
    requires ListOk(f) && Linked(next, f) && TableOk(f, flp, n)
    ensures forall e :: e in flp ==> e in next
  {
    forall i: nat | i < |flp| ensures flp[i] in next {
      var j := EntryAt(f, n, i);
    }
  }

  lemma CutBelow(f: FreeList, next: map<Addr, Addr>, flp: seq<Addr>, beyond: Addr, n: nat, b: nat, t: nat, m: nat)
    requires ListOk(f) && Linked(next, f) && TableOk(f, flp, n) && BeyondOk(f, beyond, n, b) && t <= |flp|
             && m <= |f.blocks|
    requires forall e :: e in flp ==> e in next
    requires var changed := Node(f, m);
             if m == 0 then t == 0 else (t > 0 ==> next[flp[t - 1]] < changed) && (t < |flp| ==> next[flp[t]] >= changed)
    ensures IndexBelow(f, flp[..t], if m == 0 || beyond >= Node(f, m) then 0 else beyond, if m == 0 then 0 else m - 1)
  {
    if m == 0 {
      assert TableOk(f, flp[..t], 0) && BeyondOk(f, 0, 0, 0);
    } else {
      var changed := f.blocks[m - 1];
      forall x: nat | x < n ensures Node(f, x) in next && next[Node(f, x)] == f.blocks[x] { }
      var n' := Truncated(f, flp, beyond, n, b, t, changed);
      IsBelow(f, flp[..t], if beyond >= changed then 0 else beyond, n', b, m - 1);
    }
  }

  lemma IsBelow(f: FreeList, flp: seq<Addr>, beyond: Addr, n: nat, b: nat, p: nat)
    requires ListOk(f) && TableOk(f, flp, n) && BeyondOk(f, beyond, n, b) && p < |f.blocks|
    requires (n > 0 ==> f.blocks[n - 1] < f.blocks[p]) && beyond < f.blocks[p]
    ensures IndexBelow(f, flp, beyond, p)
  {
    if n > 0 { BlockOrder(f, n - 1, p); }
    if beyond != 0 { BlockOrder(f, b, p); }
    assert TableOk(f, flp, n) && BeyondOk(f, beyond, n, b) && n <= p;
  }

  /** The table that a request produces does not overflow flp.  Where the table has an entry for the block
      found, these are the records of the changed list, as far as the table went before; otherwise the
      records up to the block found; and all records where no block fits. */
  ghost predicate RoomFor(f: FreeList, flp: seq<Addr>, wo: nat) {
    var k := FirstFit(f, wo, 0);
    forall n: nat {:trigger TableOk(f, flp, n)} :: TableOk(f, flp, n) ==> if k < n then Fits(f, k, wo, n) else Extends(f, wo)
  }

  /** The table that covers `n` blocks, rebuilt after a change of block `k`, which is one of them. */
  ghost predicate Fits(f: FreeList, k: nat, wo: nat, n: nat)
    requires k < n <= |f.blocks| && Size(f, k) >= wo
  {
    |Records(Carved(f, k, wo), if Size(f, k) < wo + 2 then n - 1 else n)| <= FLP_MAX
  }

  /** The table extended to the first block that fits, or to the end of the list. */
  ghost predicate Extends(f: FreeList, wo: nat) {
    var k := FirstFit(f, wo, 0);
    if k == |f.blocks| then RecordCount(f) < FLP_MAX else |Records(f, k + 1)| <= FLP_MAX
  }

  lemma {:induction false} FewerRecords(f: FreeList, n: nat)
    requires n <= |f.blocks|
    ensures |Records(f, n)| <= n
  {
    if n > 0 { FewerRecords(f, n - 1); }
  }

  /** A list of fewer than FLP_MAX blocks leaves room for every request. */
  lemma ShortListHasRoom(f: FreeList, flp: seq<Addr>, wo: nat)
    requires ListOk(f) && wo > 0 && |f.blocks| < FLP_MAX
    ensures RoomFor(f, flp, wo)
  {
    var k := FirstFit(f, wo, 0);
    FewerRecords(f, if k < |f.blocks| then k + 1 else k);
    forall n: nat | TableOk(f, flp, n) && k < n ensures Fits(f, k, wo, n) {
      CarvedOk(f, k, wo);
      FewerRecords(Carved(f, k, wo), if Size(f, k) < wo + 2 then n - 1 else n);
    }
  }

  /** While the scan goes on, the table is not full. */
  lemma ScanHasRoom(f: FreeList, x: nat, wo: nat)
    requires x <= |f.blocks| && Max(f, x) < wo && Extends(f, wo)
    ensures |Records(f, x)| < FLP_MAX
  {
    var k := FirstFit(f, wo, 0);
    if k == |f.blocks| {
      PrefixOf(f, x, k);
    } else {
      if k < x { MaxBound(f, x, k); }
      MaxBelow(f, k, wo);
      PrefixOf(f, x, k);
    }
  }

  /** What the naive first-fit allocation of `wo` words does: it takes the end of the first block that
      fits, and fails exactly when there is none. */
  ghost predicate AllocatedBy(f: FreeList, g: FreeList, wo: nat, h: Option<int>) {
    var k := FirstFit(f, wo, 0);
    if k < |f.blocks| then g == Carved(f, k, wo) && h == Some(f.blocks[k] + Size(f, k) - (wo + 1)) else g == f && h == None
  }

  /** The heap has just grown for a request of `wo` words: the last record is the only one that fits, and
      `beyond` may lie before it. */
  ghost predicate ExtendedFor(f: FreeList, flp: seq<Addr>, wo: nat) {
    exists n: nat :: ExtendedAt(f, flp, wo, n)
  }

  ghost predicate ExtendedAt(f: FreeList, flp: seq<Addr>, wo: nat, n: nat) {
    TableOk(f, flp, n) && n > 0 && Size(f, n - 1) >= wo && Max(f, n - 1) < wo
  }

  lemma IndexWitness(f: FreeList, flp: seq<Addr>, beyond: Addr, wo: nat) returns (n: nat, b: nat)
    requires IndexOk(f, flp, beyond) || ExtendedFor(f, flp, wo)
    ensures TableOk(f, flp, n) && (BeyondOk(f, beyond, n, b) || ExtendedAt(f, flp, wo, n))
  {
    if IndexOk(f, flp, beyond) {
      n, b :| TableOk(f, flp, n) && BeyondOk(f, beyond, n, b);
    } else {
      n :| ExtendedAt(f, flp, wo, n);
      b := 0;
    }
  }

  lemma OnlyLast(f: FreeList, flp: seq<Addr>, beyond: Addr, wo: nat, n: nat, b: nat, i: nat, k: nat)
    requires TableOk(f, flp, n) && (BeyondOk(f, beyond, n, b) || ExtendedAt(f, flp, wo, n)) && i < |flp| && k < n
             && i == |Records(f, k)| && Size(f, k) >= wo
    ensures BeyondOk(f, beyond, n, b) || i + 1 == |flp|
  {
    if ExtendedAt(f, flp, wo, n) {
      if k < n - 1 { MaxBound(f, n - 1, k); }
      assert k == n - 1;
      assert |Records(f, n)| == |Records(f, k)| + 1;
    }
  }

  lemma NotCovered(f: FreeList, n: nat, wo: nat)
    requires n <= |f.blocks| && Max(f, n) < wo
    ensures n <= FirstFit(f, wo, 0)
  {
    var k := FirstFit(f, wo, 0);
    if k < n { MaxBound(f, n, k); }
  }

  lemma StillIndex(f: FreeList, flp: seq<Addr>, beyond: Addr, wo: nat, n: nat, b: nat)
    requires TableOk(f, flp, n) && (BeyondOk(f, beyond, n, b) || ExtendedAt(f, flp, wo, n)) && Max(f, n) < wo
    ensures BeyondOk(f, beyond, n, b)
  {
  }

  lemma NoneFits(f: FreeList, wo: nat)
    requires Max(f, |f.blocks|) < wo
    ensures FirstFit(f, wo, 0) == |f.blocks|
  {
    var k := FirstFit(f, wo, 0);
    if k < |f.blocks| { MaxBound(f, |f.blocks|, k); }
  }

  lemma FitsHere(f: FreeList, x: nat, wo: nat)
    requires x < |f.blocks| && Max(f, x) < wo <= Size(f, x)
    ensures FirstFit(f, wo, 0) == x && EntryOf(f, Records(f, x) + [Node(f, x)], x + 1, |Records(f, x)|, x)
  {
    forall j: nat | j < x ensures Size(f, j) < wo { MaxBound(f, x, j); }
    FirstFitIs(f, wo, x);
  }

  lemma CompleteIsIndex(f: FreeList, flp: seq<Addr>, beyond: Addr)
    requires ListOk(f) && flp == Records(f, |f.blocks|)
             && beyond == if |f.blocks| == 0 then 0 else f.blocks[|f.blocks| - 1]
    ensures IndexOk(f, flp, beyond)
  {
    if |f.blocks| == 0 {
      assert TableOk(f, flp, 0) && BeyondOk(f, beyond, 0, 0);
    } else {
      DropLast(f, |f.blocks|, beyond, |f.blocks| - 1);
    }
  }

  /** flp after ff_allocate_block has dealt with an entry that is not the last one. */
  ghost function TableAfter(f: FreeList, flp: seq<Addr>, i: nat, k: nat, wo: nat): seq<Addr>
    requires k < |f.blocks| && i + 1 < |flp|
  {
    if Size(f, k) < wo + 2 && flp[i + 1] == f.blocks[k] then flp[i + 1 := flp[i]] else flp
  }

  lemma CarvedTail(f: FreeList, g: FreeList, k: nat, wo: nat, d: nat)
    requires ListOk(f) && k < |f.blocks| && 0 < wo <= Size(f, k) && g == Carved(f, k, wo)
             && d == if Size(f, k) < wo + 2 then 1 else 0
    ensures SameTail(f, g, k + 1, d)
  {
    CarvedOk(f, k, wo);
  }

  lemma IndexFromTail(f: FreeList, g: FreeList, flp: seq<Addr>, beyond: Addr, n: nat, b: nat, c: nat, d: nat)
    requires BeyondOk(f, beyond, n, b) && SameTail(f, g, c, d) && c < n
    requires n - d >= 0 && TableEnd(g, n - d) && flp == Records(g, n - d)
    ensures IndexOk(g, flp, beyond)
  {
    BeyondStays(f, g, beyond, n, b, c, d);
    assert TableOk(g, flp, n - d) && BeyondOk(g, beyond, n - d, if beyond == 0 then 0 else b - d);
  }

  ghost function RecordCount(f: FreeList): nat {
    |Records(f, |f.blocks|)|
  }

  /** Entry `i` stands for block `k`. */
  ghost predicate EntryOf(f: FreeList, flp: seq<Addr>, n: nat, i: nat, k: nat) {
    TableOk(f, flp, n) && k < n && i < |flp| && flp[i] == Node(f, k) && |Records(f, k)| == i && Size(f, k) > Max(f, k) && flp[..i] == Records(f, k)
  }

  lemma LastReduced(f: FreeList, flp: seq<Addr>, n: nat, i: nat, k: nat, wo: nat)
    requires ListOk(f) && wo > 0 && EntryOf(f, flp, n, i, k) && Size(f, k) >= wo + 2 && i + 1 == |flp|
    ensures var g := Carved(f, k, wo); flp[..|flp| - 1] == Records(g, k) && flp[|flp| - 1] == Node(g, k)
  {
    CarvedOk(f, k, wo);
    SamePrefix(f, Carved(f, k, wo), k);
  }

  /** The last record is gone: the table ends with the one before, and `beyond` is the block before it. */
  lemma LastRemoved(f: FreeList, flp: seq<Addr>, n: nat, i: nat, k: nat, wo: nat)
    requires ListOk(f) && wo > 0 && EntryOf(f, flp, n, i, k) && wo <= Size(f, k) < wo + 2 && i + 1 == |flp|
    ensures IndexOk(Carved(f, k, wo), flp[..i], if Node(f, k) == f.head then 0 else Node(f, k))
  {
    var g := Carved(f, k, wo);
    CarvedOk(f, k, wo);
    SamePrefix(f, g, k);
    SameNode(f, k, 0);
    if k == 0 {
      assert TableOk(g, flp[..i], 0) && BeyondOk(g, 0, 0, 0);
    } else {
      assert Node(f, k) == g.blocks[k - 1];
      DropLast(g, k, Node(f, k), k - 1);
    }
  }

  lemma CarvedGap(f: FreeList, g: FreeList, flp: seq<Addr>, flp': seq<Addr>, n: nat, i: nat, k: nat,
      wo: nat) returns (c: nat, m: nat)
    requires ListOk(f) && wo > 0 && EntryOf(f, flp, n, i, k) && wo <= Size(f, k) && i + 1 < |flp|
    requires g == Carved(f, k, wo) && flp' == TableAfter(f, flp, i, k, wo)
    ensures k + 1 < n && Gap(g, flp', i, k, c, m, Size(f, k)) && TableEnd(g, m)
            && m == if Size(f, k) < wo + 2 then n - 1 else n
  {
    if Size(f, k) < wo + 2 {
      c := WithoutGap(f, flp, n, i, k);
      m := n - 1;
    } else {
      c := ReducedGap(f, flp, n, i, k, Size(f, k) - (wo + 1));
      m := n;
    }
  }

  lemma RoomInTable(f: FreeList, x: nat, c: nat, m: nat, rest: seq<Addr>)
    requires x <= c <= m <= |f.blocks| && Records(f, m) == Records(f, c) + rest && rest != []
             && |Records(f, m)| <= FLP_MAX
    ensures |Records(f, x)| < FLP_MAX
  {
    PrefixOf(f, x, c);
  }

  lemma SmallerAlso(f: FreeList, table: seq<Addr>, i: nat, w: nat, k: nat)
    requires ListOk(f) && SmallerThan(f, table, i, w) && i < |table| && k < |f.blocks| && table[i] == Node(f, k)
             && Size(f, k) < w
    ensures SmallerThan(f, table, i + 1, w)
  {
    forall j: nat, x: nat {:trigger table[j], Node(f, x)} | j < i + 1 && j < |table| && x < |f.blocks| && table[j] == Node(f, x) ensures Size(f, x) < w {
      if j == i { SameNode(f, k, x); }
    }
  }

  // ---------------------------------------------------------------- sweeping

  /** A block at `bp` of `sz` words lies between the nodes `m` and `m + 1` of the list. */
  ghost predicate FitsBetween(f: FreeList, m: nat, bp: Addr, sz: nat) {
    && m <= |f.blocks| && bp > 0 && bp != f.head
    && (m > 0 ==> f.blocks[m - 1] + Size(f, m - 1) < bp) && (m < |f.blocks| ==> bp + sz < f.blocks[m])
  }

  function Inserted(f: FreeList, m: nat, bp: Addr, sz: nat): FreeList
    requires m <= |f.blocks|
  {
    f.(blocks := f.blocks[..m] + [bp] + f.blocks[m..], size := f.size[bp := sz])
  }

  ghost predicate JoinedNext(f: FreeList, g: FreeList, m: nat, bp: Addr, sz: nat, sz': nat) {
    if m < |f.blocks| && bp + sz + 1 == f.blocks[m] && sz + (Size(f, m) + 1) <= MAX_WOSIZE
    then g == Without(f, m) && sz' == sz + (Size(f, m) + 1) else g == f && sz' == sz
  }

  /** The block before `bp` ends there and may be joined. */
  predicate JoinsPrev(f: FreeList, m: nat, bp: Addr, sz: nat) {
    0 < m <= |f.blocks| && f.blocks[m - 1] + Size(f, m - 1) + 1 == bp && Size(f, m - 1) + (sz + 1) < MAX_WOSIZE
  }

  ghost predicate Left(f: FreeList, g: FreeList, merge: Addr, merge': Addr, frag: Addr, frag': Addr, bp: Addr,
      sz: nat, m: nat)
    requires m <= |f.blocks|
  {
    if JoinsPrev(f, m, bp, sz)
    then g == Reduced(f, m - 1, Size(f, m - 1) + (sz + 1)) && merge' == merge && frag' == frag
    else if sz != 0 then g == Inserted(f, m, bp, sz) && merge' == bp && frag' == frag
    else g == f && merge' == merge && frag' == bp
  }

  lemma WithoutFits(f: FreeList, m: nat, bp: Addr, sz: nat)
    requires ListOk(f) && FitsBetween(f, m, bp, sz) && m < |f.blocks| && bp + sz + 1 == f.blocks[m]
    ensures FitsBetween(Without(f, m), m, bp, sz + (Size(f, m) + 1)) && Node(Without(f, m), m) == Node(f, m)
  {
    WithoutOk(f, m);
    assert BlockOk(f, m);
    if m + 1 < |f.blocks| { assert Before(f, m, m + 1); }
    if m > 0 { var j: nat := m - 1; assert Without(f, m).blocks[j] == f.blocks[j]; }
  }

  lemma GrownOk(f: FreeList, k: nat, sz: nat)
    requires ListOk(f) && k < |f.blocks| && Size(f, k) <= sz
             && (k + 1 < |f.blocks| ==> f.blocks[k] + sz < f.blocks[k + 1])
    ensures ListOk(Reduced(f, k, sz)) && SameUpTo(f, Reduced(f, k, sz), k)
    ensures Total(Reduced(f, k, sz), |f.blocks|) == Total(f, |f.blocks|) + (sz - Size(f, k))
  {
    GrownListOk(f, k, sz);
    TotalSame(f, Reduced(f, k, sz), k);
    TotalShift(f, Reduced(f, k, sz), k + 1, 0, |f.blocks|);
  }

  lemma GrownListOk(f: FreeList, k: nat, sz: nat)
    requires ListOk(f) && k < |f.blocks| && Size(f, k) <= sz
             && (k + 1 < |f.blocks| ==> f.blocks[k] + sz < f.blocks[k + 1])
    ensures ListOk(Reduced(f, k, sz)) && SameUpTo(f, Reduced(f, k, sz), k) && SameTail(f, Reduced(f, k, sz), k + 1, 0)
    ensures Size(Reduced(f, k, sz), k) == sz
  {
    var g := Reduced(f, k, sz);
    forall j: nat | j < |f.blocks| ensures BlockOk(g, j) && Size(g, j) == if j == k then sz else Size(f, j) {
      assert BlockOk(f, j);
      SameNode(f, j + 1, k + 1);
    }
    forall i: nat, j: nat | i < j < |g.blocks| ensures Before(g, i, j) {
      assert Before(f, i, j);
      SameNode(f, i + 1, k + 1);
      if i == k && k + 1 < j { assert Before(f, k + 1, j); }
    }
  }

  lemma InsertedShape(f: FreeList, m: nat, bp: Addr, sz: nat)
    requires ListOk(f) && FitsBetween(f, m, bp, sz)
    ensures var g := Inserted(f, m, bp, sz);
            && |g.blocks| == |f.blocks| + 1 && g.blocks[m] == bp && Size(g, m) == sz
            && (forall j: nat {:trigger g.blocks[j]} :: j < m ==> g.blocks[j] == f.blocks[j] && Size(g, j) == Size(f, j) && g.blocks[j] + Size(g, j) < bp)
            && (forall j: nat {:trigger g.blocks[j]} :: m < j < |g.blocks| ==> g.blocks[j] == f.blocks[j - 1] && Size(g, j) == Size(f, j - 1) && bp + sz < g.blocks[j])
  {
    var g := Inserted(f, m, bp, sz);
    forall j: nat | j < m ensures g.blocks[j] == f.blocks[j] && Size(g, j) == Size(f, j) && g.blocks[j] + Size(g, j) < bp {
      assert BlockOk(f, j);
      if j < m - 1 { assert Before(f, j, m - 1); }
    }
    forall j: nat | m < j < |g.blocks| ensures g.blocks[j] == f.blocks[j - 1] && Size(g, j) == Size(f, j - 1) && bp + sz < g.blocks[j] {
      assert BlockOk(f, j - 1);
      if m < j - 1 { assert Before(f, m, j - 1); }
    }
  }

  lemma InsertedOk(f: FreeList, m: nat, bp: Addr, sz: nat)
    requires ListOk(f) && FitsBetween(f, m, bp, sz) && sz > 0
    ensures ListOk(Inserted(f, m, bp, sz)) && SameUpTo(f, Inserted(f, m, bp, sz), m)
  {
    var g := Inserted(f, m, bp, sz);
    InsertedShape(f, m, bp, sz);
    forall j: nat | j < |g.blocks| ensures BlockOk(g, j) {
      assert j < m ==> BlockOk(f, j);
      assert j > m ==> BlockOk(f, j - 1);
    }
    forall i: nat, j: nat | i < j < |g.blocks| ensures Before(g, i, j) {
      assert j < m ==> Before(f, i, j);
      assert i > m ==> Before(f, i - 1, j - 1);
    }
  }

  lemma InsertedTotal(f: FreeList, m: nat, bp: Addr, sz: nat)
    requires ListOk(f) && FitsBetween(f, m, bp, sz)
    ensures Total(Inserted(f, m, bp, sz), |f.blocks| + 1) == Total(f, |f.blocks|) + sz + 1
  {
    var g := Inserted(f, m, bp, sz);
    InsertedShape(f, m, bp, sz);
    TotalSame(f, g, m);
    TotalShift(g, f, m + 1, 1, |g.blocks|);
  }

  lemma LinkedInserted(next: map<Addr, Addr>, f: FreeList, m: nat, bp: Addr, sz: nat)
    requires ListOk(f) && Linked(next, f) && FitsBetween(f, m, bp, sz)
    ensures Node(f, m) in next && Linked(next[bp := next[Node(f, m)]][Node(f, m) := bp], Inserted(f, m, bp, sz))
  {
    var g := Inserted(f, m, bp, sz);
    InsertedShape(f, m, bp, sz);
    forall j: nat | j <= |g.blocks| ensures Node(g, j) == (if j <= m then Node(f, j) else if j == m + 1 then bp else Node(f, j - 1)) && (j != m + 1 ==> Node(g, j) != bp)
    {
      if 0 < j <= m { assert g.blocks[j - 1] == f.blocks[j - 1]; }
      if j > m + 1 { assert g.blocks[j - 1] == f.blocks[j - 2]; }
    }
    var next' := next[bp := next[Node(f, m)]][Node(f, m) := bp];
    forall j: nat | j <= |g.blocks| ensures Node(g, j) in next' && next'[Node(g, j)] == if j < |g.blocks| then g.blocks[j] else 0 {
      SameNode(f, if j <= m then j else j - 1, m);
      assert Node(f, if j <= m then j else j - 1) in next;
    }
  }

  lemma IndexFromBelow(f: FreeList, g: FreeList, flp: seq<Addr>, beyond: Addr, p: nat)
    requires IndexBelow(f, flp, beyond, p) && SameUpTo(f, g, p)
    ensures IndexOk(g, flp, beyond)
  {
    var n: nat, b: nat :| TableOk(f, flp, n) && BeyondOk(f, beyond, n, b) && n <= p && (beyond != 0 ==> b < p);
    IndexStays(f, g, flp, beyond, n, b, p);
  }

  /** The sweep finds a block at `bp0` behind the node that caml_fl_merge stands for, and with it possibly
      a fragment just before. */
  ghost predicate SweptAt(f: FreeList, merge: Addr, frag: Addr, bp0: Addr, sz0: nat, m: nat) {
    && FitsBetween(f, m, bp0, sz0) && merge == Node(f, m) && bp0 >= 2 && bp0 != f.head + 1
    && (frag == bp0 - 1 ==> FitsBetween(f, m, frag, sz0 + 1) && frag != f.head + 1)
  }

  ghost predicate Freed(f: FreeList, g: FreeList, lo: int, hi: int) {
    forall a: Addr {:trigger Free(g, a)} {:trigger Free(f, a)} :: Free(g, a) <==> Free(f, a) || lo <= a < hi
  }

  /** What the merge does to the words of the free list. */
  ghost predicate Merged(f: FreeList, g: FreeList, frag: Addr, bp0: Addr, sz0: nat, fragment: bool) {
    var joined := frag == bp0 - 1 && sz0 + 1 <= MAX_WOSIZE;
    if fragment then g == f && sz0 == 0 && !joined
    else Freed(f, g, if joined then frag - 1 else bp0 - 1, bp0 + sz0)
  }

  lemma FreeWithout(f: FreeList, k: nat)
    requires ListOk(f) && k < |f.blocks|
    ensures Freed(Without(f, k), f, f.blocks[k] - 1, f.blocks[k] + Size(f, k))
  {
    var g := Without(f, k);
    WithoutOk(f, k);
    forall a: Addr ensures Free(f, a) <==> Free(g, a) || f.blocks[k] - 1 <= a < f.blocks[k] + Size(f, k) {
      if Free(f, a) {
        var j: nat :| InBlock(f, j, a);
        assert j < k ==> InBlock(g, j, a);
        assert j > k ==> InBlock(g, j - 1, a);
      }
      if Free(g, a) {
        var j: nat :| InBlock(g, j, a);
        assert InBlock(f, if j < k then j else j + 1, a);
      }
      assert f.blocks[k] - 1 <= a < f.blocks[k] + Size(f, k) ==> InBlock(f, k, a);
    }
  }

  lemma FreeReduced(f: FreeList, k: nat, sz: nat)
    requires ListOk(f) && k < |f.blocks| && 0 < sz <= Size(f, k)
    ensures Freed(Reduced(f, k, sz), f, f.blocks[k] + sz, f.blocks[k] + Size(f, k))
  {
    var g := Reduced(f, k, sz);
    ReducedOk(f, k, sz);
    forall a: Addr ensures Free(f, a) <==> Free(g, a) || f.blocks[k] + sz <= a < f.blocks[k] + Size(f, k) {
      if Free(f, a) {
        var j: nat :| InBlock(f, j, a);
        assert (j == k && f.blocks[k] + sz <= a) || InBlock(g, j, a);
      }
      if Free(g, a) {
        var j: nat :| InBlock(g, j, a);
        assert InBlock(f, j, a);
      }
      assert f.blocks[k] + sz <= a < f.blocks[k] + Size(f, k) ==> InBlock(f, k, a);
    }
  }

  /** An allocation takes the `wo + 1` words from `h` out of the free list, and one more before them if that
      is all that would be left of the block. */
  lemma AllocationTakes(f: FreeList, g: FreeList, wo: nat, h: int)
    requires ListOk(f) && wo > 0 && AllocatedBy(f, g, wo, Some(h))
    ensures var k := FirstFit(f, wo, 0);
            k < |f.blocks| && Freed(g, f, if Size(f, k) == wo + 1 then h - 1 else h, h + (wo + 1))
            && h >= f.blocks[k] - 1 && h + (wo + 1) == f.blocks[k] + Size(f, k)
  {
    var k := FirstFit(f, wo, 0);
    if Size(f, k) < wo + 2 { FreeWithout(f, k); } else { FreeReduced(f, k, Size(f, k) - (wo + 1)); }
  }

  lemma FreeInserted(f: FreeList, m: nat, bp: Addr, sz: nat)
    requires ListOk(f) && FitsBetween(f, m, bp, sz)
    ensures Freed(f, Inserted(f, m, bp, sz), bp - 1, bp + sz)
  {
    var g := Inserted(f, m, bp, sz);
    InsertedShape(f, m, bp, sz);
    forall a: Addr ensures Free(g, a) <==> Free(f, a) || bp - 1 <= a < bp + sz {
      if Free(g, a) {
        var j: nat :| InBlock(g, j, a);
        assert j < m ==> InBlock(f, j, a);
        assert j > m ==> InBlock(f, j - 1, a);
      }
      if Free(f, a) {
        var j: nat :| InBlock(f, j, a);
        var x: nat := if j < m then j else j + 1;
        assert g.blocks[x] == f.blocks[j];
        assert InBlock(g, x, a);
      }
      assert bp - 1 <= a < bp + sz ==> InBlock(g, m, a);
    }
  }

  lemma FreeGrown(f: FreeList, k: nat, bp: Addr, sz: nat)
    requires ListOk(f) && k < |f.blocks| && f.blocks[k] + Size(f, k) + 1 == bp
    ensures Freed(f, Reduced(f, k, Size(f, k) + (sz + 1)), bp - 1, bp + sz)
  {
    var g := Reduced(f, k, Size(f, k) + (sz + 1));
    forall j: nat | j < |f.blocks| ensures Size(g, j) == if j == k then Size(f, k) + (sz + 1) else Size(f, j) {
      assert BlockOk(f, j);
      SameNode(f, j + 1, k + 1);
    }
    forall a: Addr ensures Free(g, a) <==> Free(f, a) || bp - 1 <= a < bp + sz {
      if Free(g, a) {
        var j: nat :| InBlock(g, j, a);
        assert (j == k && a >= bp - 1) || InBlock(f, j, a);
      }
      if Free(f, a) {
        var j: nat :| InBlock(f, j, a);
        assert InBlock(g, j, a);
      }
      assert bp - 1 <= a < bp + sz ==> InBlock(g, k, a);
    }
  }

  /** After the next block has been taken along: the words still add up, and the index still fits. */
  lemma NextJoined(f: FreeList, g: FreeList, flp: seq<Addr>, beyond: Addr, p: nat, m: nat, bp: Addr, sz: nat, sz': nat)
    requires ListOk(f) && FitsBetween(f, m, bp, sz) && JoinedNext(f, g, m, bp, sz, sz')
             && IndexBelow(f, flp, beyond, p) && p <= m
    ensures Total(g, |g.blocks|) + sz' == Total(f, |f.blocks|) + sz && IndexBelow(g, flp, beyond, p)
    ensures if sz' == sz then g == f else Freed(g, f, bp + sz, bp + sz') && sz' > sz
  {
    if g != f {
      TotalWithout(f, m);
      FreeWithout(f, m);
      WithoutTail(f, m);
      IndexBelowStays(f, g, flp, beyond, p);
    }
  }

  lemma IndexBelowStays(f: FreeList, g: FreeList, flp: seq<Addr>, beyond: Addr, p: nat)
    requires IndexBelow(f, flp, beyond, p) && SameUpTo(f, g, p)
    ensures IndexBelow(g, flp, beyond, p)
  {
    var n: nat, b: nat :| TableOk(f, flp, n) && BeyondOk(f, beyond, n, b) && n <= p && (beyond != 0 ==> b < p);
    IndexStays(f, g, flp, beyond, n, b, p);
  }

  lemma LeftWhat(f: FreeList, g: FreeList, merge: Addr, merge': Addr, frag: Addr, frag': Addr, bp: Addr, sz: nat,
      m: nat) returns (fragment: bool)
    requires ListOk(f) && FitsBetween(f, m, bp, sz) && Left(f, g, merge, merge', frag, frag', bp, sz, m)
             && merge == Node(f, m)
    ensures fragment <==> sz == 0 && !JoinsPrev(f, m, bp, sz)
    ensures fragment ==> g == f && frag' == bp && merge' == merge
    ensures !fragment ==> Freed(f, g, bp - 1, bp + sz) && frag' == frag
  {
    fragment := false;
    if JoinsPrev(f, m, bp, sz) {
      FreeGrown(f, m - 1, bp, sz);
    } else if sz != 0 {
      FreeInserted(f, m, bp, sz);
    } else {
      fragment := true;
    }
  }

  lemma WhatJoined(f: FreeList, f1: FreeList, g: FreeList, bp: Addr, sz: nat, sz1: nat, fragment: bool)
    requires if sz1 == sz then f1 == f else Freed(f1, f, bp + sz, bp + sz1) && sz1 > sz
    requires if fragment then sz1 == 0 && g == f1 else Freed(f1, g, bp - 1, bp + sz1)
    ensures if fragment then sz == 0 && g == f else Freed(f, g, bp - 1, bp + sz)
  {
  }

  // ---------------------------------------------------------------- neighbours

  /** Block `k` of the list ends where the next one starts. */
  ghost predicate Seam(f: FreeList, k: nat) {
    k + 1 < |f.blocks| && f.blocks[k] + Size(f, k) + 1 == f.blocks[k + 1]
  }

  /** At `c` a free block starts where another one ends. */
  ghost predicate SeamAt(f: FreeList, c: Addr) {
    exists k: nat :: Seam(f, k) && f.blocks[k + 1] == c
  }

  /** The blocks before and behind `c` are too large to be one block: a block freed by the sweeper is joined to
      the block behind it up to the greatest size, and to the block before it below that size only. */
  ghost predicate TooLarge(f: FreeList, c: Addr, strict: bool) {
    exists k: nat :: Seam(f, k) && f.blocks[k + 1] == c && Size(f, k) + Size(f, k + 1) + 1 >= MAX_WOSIZE + if strict then 1 else 0
  }

  /** What freeing a block at `bp0` does to the places where free blocks touch: those that did still do, with
      blocks no smaller, and no others, unless the two blocks are too large for one. */
  ghost predicate SeamsAfter(f: FreeList, g: FreeList, bp0: Addr) {
    forall c: Addr {:trigger SeamAt(g, c)} {:trigger SeamAt(f, c)} ::
      && (SeamAt(f, c) ==> SeamAt(g, c)) && (SeamAt(f, c) && TooLarge(f, c, false) ==> TooLarge(g, c, false))
      && (SeamAt(g, c) ==> SeamAt(f, c) || TooLarge(g, c, c > bp0))
  }

  /** One block of the list covers the words from `lo` up to `hi`. */
  ghost predicate Covers(f: FreeList, lo: int, hi: int) {
    exists k: nat :: k < |f.blocks| && f.blocks[k] - 1 <= lo && hi <= f.blocks[k] + Size(f, k)
  }

  /** No free block touches the fragment at `bp0`, unless it is too large to be joined. */
  ghost predicate Lone(f: FreeList, bp0: Addr) {
    forall k: nat {:trigger f.blocks[k]} :: k < |f.blocks| ==>
      && (f.blocks[k] == bp0 + 1 ==> Size(f, k) + 1 > MAX_WOSIZE)
      && (f.blocks[k] + Size(f, k) + 1 == bp0 ==> Size(f, k) + 1 >= MAX_WOSIZE)
  }

  /** From block `c` of `f` and block `d` of `g` on, the lists are the same. */
  ghost predicate SameFrom(f: FreeList, c: nat, g: FreeList, d: nat) {
    && c <= |f.blocks| && d <= |g.blocks| && |f.blocks| - c == |g.blocks| - d
    && forall x: nat {:trigger f.blocks[x]} :: c <= x < |f.blocks| ==> g.blocks[x - c + d] == f.blocks[x] && Size(g, x - c + d) == Size(f, x)
  }

  /** The blocks from `lo` up to `hi` have given way to block `b` of `w` words. */
  ghost predicate Fused(f: FreeList, g: FreeList, lo: nat, hi: nat, b: Addr, w: nat) {
    && lo <= hi && SameUpTo(f, g, lo) && SameFrom(f, hi, g, lo + 1) && g.blocks[lo] == b && Size(g, lo) == w
  }

  /** A block of `sz` words at `bp` has been joined to its neighbours where they touch it and are not too large. */
  ghost predicate FusedAround(f: FreeList, g: FreeList, m: nat, bp: Addr, sz: nat, lo: nat, hi: nat) {
    && FitsBetween(f, m, bp, sz) && lo <= m <= lo + 1 && m <= hi <= m + 1 && hi <= |f.blocks|
    && var end := if hi == m then bp + sz else f.blocks[m] + Size(f, m);
    && (hi == m && m < |f.blocks| && bp + sz + 1 == f.blocks[m] ==> sz + Size(f, m) + 1 > MAX_WOSIZE)
    && (hi == m + 1 ==> bp + sz + 1 == f.blocks[m])
    && (lo == m && m > 0 && f.blocks[m - 1] + Size(f, m - 1) + 1 == bp ==> Size(f, m - 1) + (end - bp) + 1 >= MAX_WOSIZE)
    && (lo == m - 1 ==> f.blocks[lo] + Size(f, lo) + 1 == bp)
    && Fused(f, g, lo, hi, if lo == m then bp else f.blocks[lo], if lo == m then end - bp else end - f.blocks[lo])
  }

  lemma FusedSeams(f: FreeList, g: FreeList, m: nat, bp: Addr, sz: nat, lo: nat, hi: nat, bp0: Addr)
    requires ListOk(f) && FusedAround(f, g, m, bp, sz, lo, hi) && bp <= bp0 <= bp + sz
    ensures SeamsAfter(f, g, bp0)
  {
    forall c: Addr
      ensures (SeamAt(f, c) ==> SeamAt(g, c)) && (TooLarge(f, c, false) ==> TooLarge(g, c, false))
      ensures SeamAt(g, c) ==> SeamAt(f, c) || TooLarge(g, c, c > bp0)
    {
      FusedSeamAt(f, g, m, bp, sz, lo, hi, bp0, c);
    }
  }

  lemma FusedSeamAt(f: FreeList, g: FreeList, m: nat, bp: Addr, sz: nat, lo: nat, hi: nat, bp0: Addr, c: Addr)
    requires ListOk(f) && FusedAround(f, g, m, bp, sz, lo, hi) && bp <= bp0 <= bp + sz
    ensures (SeamAt(f, c) ==> SeamAt(g, c)) && (TooLarge(f, c, false) ==> TooLarge(g, c, false))
    ensures SeamAt(g, c) ==> SeamAt(f, c) || TooLarge(g, c, c > bp0)
  {
    if SeamAt(f, c) {
      var k: nat :| Seam(f, k) && f.blocks[k + 1] == c;
      SeamStays(f, g, m, bp, sz, lo, hi, k);
    }
    if TooLarge(f, c, false) {
      var k: nat :| Seam(f, k) && f.blocks[k + 1] == c && Size(f, k) + Size(f, k + 1) + 1 >= MAX_WOSIZE;
      SeamStays(f, g, m, bp, sz, lo, hi, k);
    }
    if SeamAt(g, c) {
      var k: nat :| Seam(g, k) && g.blocks[k + 1] == c;
      SeamFrom(f, g, m, bp, sz, lo, hi, bp0, k);
    }
  }

  lemma SeamStays(f: FreeList, g: FreeList, m: nat, bp: Addr, sz: nat, lo: nat, hi: nat, k: nat)
    requires ListOk(f) && FusedAround(f, g, m, bp, sz, lo, hi) && Seam(f, k)
    ensures SeamAt(g, f.blocks[k + 1])
    ensures Size(f, k) + Size(f, k + 1) + 1 >= MAX_WOSIZE ==> TooLarge(g, f.blocks[k + 1], false)
  {
    var j: nat := if k < hi then if k < lo then k else lo else k - hi + lo + 1;
    assert f.blocks[k + 1] == g.blocks[j + 1] && Seam(g, j);
  }

  lemma SeamFrom(f: FreeList, g: FreeList, m: nat, bp: Addr, sz: nat, lo: nat, hi: nat, bp0: Addr, k: nat)
    requires ListOk(f) && FusedAround(f, g, m, bp, sz, lo, hi) && bp <= bp0 <= bp + sz && Seam(g, k)
    ensures var c := g.blocks[k + 1]; SeamAt(f, c) || TooLarge(g, c, c > bp0)
  {
    if k + 1 < lo {
      assert Seam(f, k);
    } else if k > lo {
      var x: nat := k - (lo + 1) + hi;
      assert g.blocks[k] == f.blocks[x] && g.blocks[k + 1] == f.blocks[x + 1];
      assert Seam(f, x);
    } else if k == lo {
      assert g.blocks[k + 1] == f.blocks[hi];
      if hi == m + 1 { assert Seam(f, m); }
    } else if lo < m {
      assert Seam(f, k);
    }
  }

  /** Where the sweep goes on when it has freed a block that ends at `end`: there, or behind the next block of the
      list if that one was joined; in front of it are `m1` blocks, and the rest of the list is as it was. */
  ghost predicate Onward(f: FreeList, g: FreeList, m: nat, end: Addr, adj: Addr, m1: nat) {
    && m <= |f.blocks| && m1 <= |g.blocks| && (m1 > 0 ==> g.blocks[m1 - 1] + Size(g, m1 - 1) <= adj)
    && if adj == end then SameFrom(f, m, g, m1)
       else m < |f.blocks| && f.blocks[m] == end + 1 && adj == f.blocks[m] + Size(f, m) && SameFrom(f, m + 1, g, m1)
  }

  /** The two joins together. */
  lemma FusedBy(f: FreeList, g: FreeList, g': FreeList, merge: Addr, merge': Addr, frag: Addr, frag': Addr, m: nat, bp: Addr,
      sz: nat, sz1: nat) returns (lo: nat)
    requires ListOk(f) && FitsBetween(f, m, bp, sz) && JoinedNext(f, g, m, bp, sz, sz1) && merge == Node(f, m)
    requires ListOk(g) && FitsBetween(g, m, bp, sz1) && Left(g, g', merge, merge', frag, frag', bp, sz1, m)
    requires sz1 != 0 || JoinsPrev(g, m, bp, sz1)
    ensures FusedAround(f, g', m, bp, sz, lo, if sz1 == sz then m else m + 1) && merge' == Node(g', lo + 1)
  {
    var b, w := bp, sz1;
    if JoinsPrev(g, m, bp, sz1) {
      lo, b, w := m - 1, g.blocks[m - 1], Size(g, m - 1) + (sz1 + 1);
      FusedByGrowth(g, g', m, w);
    } else {
      lo := m;
      FusedByInsertion(g, m, bp, sz1);
    }
    assert Fused(g, g', lo, m, b, w);
    if sz1 != sz {
      WithoutTail(f, m);
      FusedWithNext(f, g, g', m, lo, b, w);
    }
  }

  lemma FusedByGrowth(g: FreeList, g': FreeList, m: nat, sz: nat)
    requires ListOk(g) && 0 < m <= |g.blocks| && Size(g, m - 1) <= sz && (m < |g.blocks| ==> g.blocks[m - 1] + sz < g.blocks[m])
    requires g' == Reduced(g, m - 1, sz)
    ensures Fused(g, g', m - 1, m, g.blocks[m - 1], sz)
  {
    GrownListOk(g, m - 1, sz);
  }

  lemma FusedByInsertion(g: FreeList, m: nat, bp: Addr, sz: nat)
    requires ListOk(g) && FitsBetween(g, m, bp, sz)
    ensures Fused(g, Inserted(g, m, bp, sz), m, m, bp, sz)
  {
    InsertedShape(g, m, bp, sz);
    var g' := Inserted(g, m, bp, sz);
    forall x: nat | m <= x < |g.blocks| ensures g'.blocks[x - m + (m + 1)] == g.blocks[x] && Size(g', x - m + (m + 1)) == Size(g, x) {
      var j: nat := x + 1;
      assert g'.blocks[j] == g.blocks[j - 1];
    }
    forall j: nat | j < m ensures g'.blocks[j] == g.blocks[j] && Size(g', j) == Size(g, j) { }
    assert SameUpTo(g, g', m);
    assert SameFrom(g, m, g', m + 1);
  }

  lemma FusedWithNext(f: FreeList, g: FreeList, g': FreeList, m: nat, lo: nat, b: Addr, w: nat)
    requires SameUpTo(f, g, m) && m < |f.blocks| && SameTail(f, g, m + 1, 1) && lo <= m && Fused(g, g', lo, m, b, w)
    ensures Fused(f, g', lo, m + 1, b, w)
  {
    forall x: nat | m + 1 <= x < |f.blocks|
      ensures g'.blocks[x - m + lo] == f.blocks[x] && Size(g', x - m + lo) == Size(f, x)
    {
      var y: nat := x - 1;
      assert g.blocks[y] == f.blocks[x];
    }
  }

  lemma WhereJoined(f: FreeList, g: FreeList, g': FreeList, merge: Addr, merge': Addr, frag: Addr, frag': Addr, m: nat, bp: Addr,
      sz: nat, sz1: nat, bp0: Addr) returns (m1: nat)
    requires ListOk(f) && FitsBetween(f, m, bp, sz) && JoinedNext(f, g, m, bp, sz, sz1) && merge == Node(f, m)
    requires ListOk(g) && FitsBetween(g, m, bp, sz1) && Left(g, g', merge, merge', frag, frag', bp, sz1, m)
    requires bp <= bp0 <= bp + sz
    ensures m1 <= |g'.blocks| && merge' == Node(g', m1) && Onward(f, g', m, bp + sz, bp + sz1, m1) && SeamsAfter(f, g', bp0)
    ensures if sz1 != 0 || JoinsPrev(g, m, bp, sz1) then Covers(g', bp - 1, bp + sz) else Lone(g', bp)
  {
    if sz1 != 0 || JoinsPrev(g, m, bp, sz1) {
      var lo := FusedBy(f, g, g', merge, merge', frag, frag', m, bp, sz, sz1);
      FusedSeams(f, g', m, bp, sz, lo, if sz1 == sz then m else m + 1, bp0);
      m1 := lo + 1;
    } else {
      IsLone(f, m, bp);
      m1 := m;
    }
  }

  lemma IsLone(f: FreeList, m: nat, bp: Addr)
    requires ListOk(f) && FitsBetween(f, m, bp, 0) && JoinedNext(f, f, m, bp, 0, 0) && !JoinsPrev(f, m, bp, 0)
    ensures Lone(f, bp)
  {
    forall k: nat | k < |f.blocks|
      ensures f.blocks[k] == bp + 1 ==> Size(f, k) + 1 > MAX_WOSIZE
      ensures f.blocks[k] + Size(f, k) + 1 == bp ==> Size(f, k) + 1 >= MAX_WOSIZE
    {
      assert k + 1 < m ==> Before(f, k, m - 1);
      assert m < k ==> Before(f, m, k);
    }
  }
}
