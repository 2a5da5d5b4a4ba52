// The free lists of small blocks (freelist.c): one list for each size, a
// bitmap of the non-empty lists, and for each list the place where the
// sweeper inserts.  A list is a sequence and a pointer into it an index; bit
// number k of the bitmap is entry k of a sequence of bits.

module SmallLists {
  import opened Basics
  import opened Trees
  import opened LargeTree

  ghost predicate IsBlue(color: map<Addr, Color>, a: Addr) {
    a in color && color[a] == Blue
  }

  ghost predicate IsWhite(color: map<Addr, Color>, a: Addr) {
    a in color && color[a] == White
  }

  /** Remnants, white and in any order, then blue blocks in increasing order of addresses. */
  ghost predicate Ordered(color: map<Addr, Color>, s: seq<Addr>) {
    && Distinct(s)
    && (forall k :: 0 <= k < |s| ==> IsBlue(color, s[k]) || IsWhite(color, s[k]))
    && forall j, k :: 0 <= j < k < |s| && IsBlue(color, s[j]) ==> IsBlue(color, s[k]) && s[j] < s[k]
  }

  ghost predicate OfSize(size: Sizes, s: seq<Addr>, i: nat) {
    forall k :: 0 <= k < |s| ==> s[k] != NULL && s[k] in size && size[s[k]] == i
  }

  /** The sweeper, which has not yet reached `front`, goes on at index `m` of the list: no block
      before it is at `front` or beyond, and every block from there on is blue. */
  ghost predicate Swept(color: map<Addr, Color>, s: seq<Addr>, m: nat, front: Addr) {
    && m <= |s|
    && (forall k :: 0 <= k < m ==> s[k] < front)
    && forall k :: m <= k < |s| ==> IsBlue(color, s[k])
  }

  function RemoveAt(s: seq<Addr>, i: nat): seq<Addr>
    requires i < |s|
  {
    s[..i] + s[i + 1..]
  }

  function InsertAt(s: seq<Addr>, i: nat, v: Addr): seq<Addr>
    requires i <= |s|
  {
    s[..i] + [v] + s[i..]
  }

  lemma RemoveOrdered(color: map<Addr, Color>, s: seq<Addr>, i: nat)
    requires Ordered(color, s) && i < |s|
    ensures Ordered(color, RemoveAt(s, i)) && forall x :: x in RemoveAt(s, i) <==> x in s && x != s[i]
  {
    var u := RemoveAt(s, i);
    assert forall k :: 0 <= k < |u| ==> u[k] == s[if k < i then k else k + 1];
    forall x | x in s && x != s[i] ensures x in u {
      var k :| 0 <= k < |s| && s[k] == x;
      assert u[if k < i then k else k - 1] == x;
    }
  }

  lemma InsertOrdered(color: map<Addr, Color>, s: seq<Addr>, i: nat, v: Addr)
    requires Ordered(color, s) && i <= |s| && v !in s && IsBlue(color, v)
    requires forall k :: 0 <= k < i ==> s[k] < v
    requires forall k :: i <= k < |s| ==> IsBlue(color, s[k]) && s[k] > v
    ensures Ordered(color, InsertAt(s, i, v)) && forall x :: x in InsertAt(s, i, v) <==> x in s || x == v
  {
    var u := InsertAt(s, i, v);
    assert forall k :: 0 <= k < |u| ==> u[k] == if k < i then s[k] else if k == i then v else s[k - 1];
    assert u[i] == v;
    forall x | x in s ensures x in u {
      var k :| 0 <= k < |s| && s[k] == x;
      assert u[if k < i then k else k + 1] == x;
    }
  }

  /** The lists, the sweeper's places in them, the bitmap; all the blocks in the lists. */
  datatype Lists = Lists(lists: seq<seq<Addr>>, merge: seq<nat>, bits: seq<bool>, blocks: set<Addr>)

  ghost predicate Shaped(r: Lists) {
    |r.lists| == |r.merge| == BF_NUM_SMALL + 1 && |r.bits| == BF_NUM_SMALL
  }

  ghost predicate ListOk(r: Lists, size: Sizes, color: map<Addr, Color>, i: nat)
    requires Shaped(r) && 1 <= i <= BF_NUM_SMALL
  {
    && Ordered(color, r.lists[i]) && OfSize(size, r.lists[i], i)
    && (forall b :: b in r.lists[i] ==> b in r.blocks)
    && (r.bits[i - 1] <==> r.lists[i] != [])
  }

  ghost predicate BlockOk(r: Lists, size: Sizes, b: Addr)
    requires Shaped(r)
  {
    b in size && 1 <= size[b] <= BF_NUM_SMALL && b in r.lists[size[b]]
  }

  ghost predicate SmallOk(r: Lists, size: Sizes, color: map<Addr, Color>) {
    && Shaped(r)
    && (forall i: nat {:trigger ListOk(r, size, color, i)} :: 1 <= i <= BF_NUM_SMALL ==> ListOk(r, size, color, i))
    && forall b {:trigger BlockOk(r, size, b)} :: b in r.blocks ==> BlockOk(r, size, b)
  }

  ghost predicate SweptList(r: Lists, color: map<Addr, Color>, i: nat, front: Addr)
    requires Shaped(r) && 1 <= i <= BF_NUM_SMALL
  {
    Swept(color, r.lists[i], r.merge[i], front)
  }

  /** Every list is ready for the sweeper at `front`. */
  ghost predicate AllSwept(r: Lists, color: map<Addr, Color>, front: Addr) {
    && Shaped(r)
    && forall i: nat {:trigger SweptList(r, color, i, front)} :: 1 <= i <= BF_NUM_SMALL ==> SweptList(r, color, i, front)
  }

  /** The lists without the first block of list `i`. */
  ghost function WithoutFront(r: Lists, i: nat): Lists
    requires Shaped(r) && 1 <= i <= BF_NUM_SMALL && r.lists[i] != []
  {
    Changed(r, i, r.lists[i][1..], if r.merge[i] > 0 then r.merge[i] - 1 else 0, r.blocks - {r.lists[i][0]})
  }

  lemma FrontGone(r: Lists, size: Sizes, color: map<Addr, Color>, i: nat, front: Addr)
    requires SmallOk(r, size, color) && 1 <= i <= BF_NUM_SMALL && r.lists[i] != []
    ensures SmallOk(WithoutFront(r, i), size, color) && r.lists[i][0] in r.blocks && r.lists[i][0] in size
            && size[r.lists[i][0]] == i
    ensures r.bits[i - 1]
    ensures AllSwept(r, color, front) ==> AllSwept(WithoutFront(r, i), color, front)
  {
    var s, rest, m := r.lists[i], r.lists[i][1..], if r.merge[i] > 0 then r.merge[i] - 1 else 0;
    ListFacts(r, size, color, i);
    assert s[0] in s;
    RemoveOrdered(color, s, 0);
    assert RemoveAt(s, 0) == rest;
    ChangedOk(r, size, color, i, rest, m, r.blocks - {s[0]});
    if AllSwept(r, color, front) {
      FrontSwept(r, color, i, m, front);
    }
  }

  lemma FrontSwept(r: Lists, color: map<Addr, Color>, i: nat, m: nat, front: Addr)
    requires AllSwept(r, color, front) && 1 <= i <= BF_NUM_SMALL && r.lists[i] != []
    requires m == if r.merge[i] > 0 then r.merge[i] - 1 else 0
    ensures AllSwept(Changed(r, i, r.lists[i][1..], m, r.blocks - {r.lists[i][0]}), color, front)
  {
    assert SweptList(r, color, i, front);
    assert Swept(color, r.lists[i][1..], m, front);
    ChangedSwept(r, color, i, r.lists[i][1..], m, r.blocks - {r.lists[i][0]}, front);
  }

  /** List `i` changes to `s`, with the sweeper's place at `m`. */
  ghost function Changed(r: Lists, i: nat, s: seq<Addr>, m: nat, blocks: set<Addr>): Lists
    requires Shaped(r) && 1 <= i <= BF_NUM_SMALL
  {
    Lists(r.lists[i := s], r.merge[i := m], r.bits[i - 1 := s != []], blocks)
  }

  lemma ChangedOk(r: Lists, size: Sizes, color: map<Addr, Color>, i: nat, s: seq<Addr>, m: nat, blocks: set<Addr>)
    requires SmallOk(r, size, color) && 1 <= i <= BF_NUM_SMALL
    requires Ordered(color, s) && OfSize(size, s, i)
    requires forall b :: b in s ==> b in blocks
    requires forall b :: b in r.blocks && b in size && size[b] != i ==> b in blocks
    requires forall b :: b in blocks ==> b in s || (b in r.blocks && b in size && size[b] != i)
    ensures SmallOk(Changed(r, i, s, m, blocks), size, color)
  {
    var r' := Changed(r, i, s, m, blocks);
    forall j: nat | 1 <= j <= BF_NUM_SMALL ensures ListOk(r', size, color, j) {
      assert ListOk(r, size, color, j);
    }
    forall b | b in blocks ensures BlockOk(r', size, b) {
      assert b in r.blocks ==> BlockOk(r, size, b);
    }
  }

  lemma ChangedSwept(r: Lists, color: map<Addr, Color>, i: nat, s: seq<Addr>, m: nat, blocks: set<Addr>, front: Addr)
    requires AllSwept(r, color, front) && 1 <= i <= BF_NUM_SMALL && Swept(color, s, m, front)
    ensures AllSwept(Changed(r, i, s, m, blocks), color, front)
  {
    var r' := Changed(r, i, s, m, blocks);
    forall j: nat | 1 <= j <= BF_NUM_SMALL ensures SweptList(r', color, j, front) {
      assert SweptList(r, color, j, front);
    }
  }

  /** The blocks of one list. */
  lemma ListFacts(r: Lists, size: Sizes, color: map<Addr, Color>, i: nat)
    requires SmallOk(r, size, color) && 1 <= i <= BF_NUM_SMALL
    ensures ListOk(r, size, color, i)
    ensures forall b :: b in r.blocks ==> b in size && 1 <= size[b] <= BF_NUM_SMALL
    ensures forall b :: b in r.lists[i] <==> b in r.blocks && size[b] == i
  {
    forall b | b in r.blocks ensures b in size && 1 <= size[b] <= BF_NUM_SMALL && b in r.lists[size[b]] { assert BlockOk(r, size, b); }
    assert ListOk(r, size, color, i);
  }

  class SmallLists {
    const mem: Headers
    var lists: seq<seq<Addr>>
    var merge: seq<nat>
    var smallMap: seq<bool>
    ghost var blocks: set<Addr>

    ghost function L(): Lists
      reads this
    {
      Lists(lists, merge, smallMap, blocks)
    }

    ghost predicate Valid()
      reads this, mem
    {
      SmallOk(L(), mem.size, mem.color)
    }

    constructor (mem: Headers)
      ensures Valid() && blocks == {} && this.mem == mem
    {
      this.mem := mem;
      lists := seq(BF_NUM_SMALL + 1, _ => []);
      merge := seq(BF_NUM_SMALL + 1, _ => 0);
      smallMap := seq(BF_NUM_SMALL, _ => false);
      blocks := {};
    }

    /** The first block of list `i` is taken. */
    method PopFront(i: nat, ghost front: Addr) returns (block: Addr)
      requires Valid() && 1 <= i <= BF_NUM_SMALL && lists[i] != []
      modifies this
      ensures Valid() && block == old(lists)[i][0] && block in old(blocks) && blocks == old(blocks) - {block}
      ensures block in mem.size && mem.size[block] == i && lists == old(lists)[i := old(lists)[i][1..]]
      ensures |merge| == |old(merge)| && forall j :: 0 <= j < |merge| && j != i ==> merge[j] == old(merge)[j]
      ensures old(AllSwept(L(), mem.color, front)) ==> AllSwept(L(), mem.color, front)
    {
      FrontGone(L(), mem.size, mem.color, i, front);
      ghost var r := WithoutFront(L(), i);
      block := lists[i][0];
      if merge[i] > 0 {
        merge := merge[i := merge[i] - 1];
      }
      lists := lists[i := lists[i][1..]];
      if lists[i] == [] {
        smallMap := smallMap[i - 1 := false];
      }
      blocks := blocks - {block};
      assert L() == r;
    }

    /** The part of bf_insert_remnant_small that links a white remnant at the front of its list. */
    method PushFront(v: Addr, ghost front: Addr)
      requires Valid() && v !in blocks && v != NULL && v in mem.size && 1 <= mem.size[v] <= BF_NUM_SMALL
               && IsWhite(mem.color, v)
      modifies this
      ensures Valid() && blocks == old(blocks) + {v}
      ensures old(AllSwept(L(), mem.color, front)) && v < front ==> AllSwept(L(), mem.color, front)
    {
      var i := mem.size[v];
      ghost var r, s := L(), lists[i];
      ListFacts(r, mem.size, mem.color, i);
      lists := lists[i := [v] + lists[i]];
      merge := merge[i := merge[i] + 1];
      smallMap := smallMap[i - 1 := true];
      blocks := blocks + {v};
      ghost var u := [v] + s;
      PushOrdered(mem.color, s, v);
      assert L() == Changed(r, i, u, merge[i], blocks);
      ChangedOk(r, mem.size, mem.color, i, u, merge[i], blocks);
      if AllSwept(r, mem.color, front) && v < front {
        assert SweptList(r, mem.color, i, front);
        ChangedSwept(r, mem.color, i, u, merge[i], blocks, front);
      }
    }

    /** The part of bf_insert_sweep for small blocks: the list stays in address order. */
    method InsertSweep(v: Addr, ghost front: Addr)
      requires Valid() && AllSwept(L(), mem.color, front) && front <= v && v != NULL
      requires v !in blocks && v in mem.size && 1 <= mem.size[v] <= BF_NUM_SMALL && IsBlue(mem.color, v)
      modifies this
      ensures Valid() && blocks == old(blocks) + {v} && AllSwept(L(), mem.color, v + 1)
    {
      var i := mem.size[v];
      ListFacts(L(), mem.size, mem.color, i);
      assert SweptList(L(), mem.color, i, front);
      var m := merge[i];
      while m < |lists[i]| && lists[i][m] < v
        invariant merge[i] <= m <= |lists[i]| && forall k :: 0 <= k < m ==> lists[i][k] < v
      {
        m := m + 1;
      }
      SweepInserted(L(), mem.size, mem.color, i, m, v, front);
      if m == |lists[i]| {
        smallMap := smallMap[i - 1 := true];
      }
      lists, merge := lists[i := InsertAt(lists[i], m, v)], merge[i := m + 1];
      blocks := blocks + {v};
      assert L() == Changed(old(L()), i, InsertAt(old(lists)[i], m, v), m + 1, blocks);
    }

    /** The part of bf_remove for small blocks. */
    method Remove(v: Addr, ghost front: Addr)
      requires Valid() && AllSwept(L(), mem.color, front) && front <= v
      requires v in blocks && v in mem.size && mem.size[v] <= BF_NUM_SMALL
      modifies this
      ensures Valid() && blocks == old(blocks) - {v} && AllSwept(L(), mem.color, v)
    {
      var i := mem.size[v];
      var m := FindFrom(v, i, front);
      ghost var r := WithoutAt(L(), i, m);
      SweepRemoved(L(), mem.size, mem.color, i, m, v, front);
      lists, merge := lists[i := RemoveAt(lists[i], m)], merge[i := m];
      if lists[i] == [] {
        smallMap := smallMap[i - 1 := false];
      }
      blocks := blocks - {v};
      assert L() == r;
    }

    /** The place of block `v` in list `i`, from the merge pointer on. */
    method FindFrom(v: Addr, i: nat, ghost front: Addr) returns (m: nat)
      requires Valid() && AllSwept(L(), mem.color, front) && front <= v && v in blocks && v in mem.size
               && mem.size[v] == i <= BF_NUM_SMALL
      ensures 1 <= i && merge[i] <= m < |lists[i]| && lists[i][m] == v
    {
      assert BlockOk(L(), mem.size, v);
      ListFacts(L(), mem.size, mem.color, i);
      assert SweptList(L(), mem.color, i, front);
      ghost var at :| 0 <= at < |lists[i]| && lists[i][at] == v;
      m := merge[i];
      while lists[i][m] != v
        invariant merge[i] <= m <= at
        decreases at - m
      {
        m := m + 1;
      }
    }

    /** ffs (bf_small_map & ((-1) << wosz)): the next size that has blocks, or 0. */
    method NextSize(wosz: nat) returns (s: nat)
      requires Valid() && 1 <= wosz <= BF_NUM_SMALL
      ensures s != 0 ==> wosz < s <= BF_NUM_SMALL && lists[s] != [] && forall b :: b in blocks ==> b in mem.size && !(wosz < mem.size[b] < s)
      ensures s == 0 ==> forall b :: b in blocks ==> b in mem.size && mem.size[b] <= wosz
    {
      s := wosz + 1;
      ListFacts(L(), mem.size, mem.color, wosz);
      while s <= BF_NUM_SMALL && !smallMap[s - 1]
        invariant wosz < s <= BF_NUM_SMALL + 1
        invariant forall b :: b in blocks ==> b in mem.size && 1 <= mem.size[b] <= BF_NUM_SMALL && !(wosz < mem.size[b] < s)
      {
        ListFacts(L(), mem.size, mem.color, s);
        s := s + 1;
      }
      if s > BF_NUM_SMALL {
        s := 0;
      } else {
        ListFacts(L(), mem.size, mem.color, s);
      }
    }

    /** bf_small_fl[i].merge = &bf_small_fl[i].free */
    method ResetMerge(i: nat)
      requires Valid() && 1 <= i <= BF_NUM_SMALL
      modifies `merge
      ensures Valid() && merge == old(merge)[i := 0]
    {
      ghost var r, s := L(), lists[i];
      ListFacts(r, mem.size, mem.color, i);
      merge := merge[i := 0];
      assert lists[i := s] == lists && smallMap[i - 1 := s != []] == smallMap;
      assert L() == Changed(r, i, s, 0, blocks);
      ChangedOk(r, mem.size, mem.color, i, s, 0, blocks);
    }
  }

  lemma LaterFront(r: Lists, color: map<Addr, Color>, front: Addr, later: Addr)
    requires AllSwept(r, color, front) && front <= later
    ensures AllSwept(r, color, later)
  {
    forall i: nat | 1 <= i <= BF_NUM_SMALL ensures SweptList(r, color, i, later) {
      assert SweptList(r, color, i, front);
    }
  }

  lemma SweepInserted(r: Lists, size: Sizes, color: map<Addr, Color>, i: nat, m: nat, v: Addr, front: Addr)
    requires SmallOk(r, size, color) && AllSwept(r, color, front) && front <= v && v != NULL && 1 <= i <= BF_NUM_SMALL
    requires v !in r.blocks && v in size && size[v] == i && IsBlue(color, v)
    requires r.merge[i] <= m <= |r.lists[i]| && forall k :: 0 <= k < m ==> r.lists[i][k] < v
    requires m < |r.lists[i]| ==> r.lists[i][m] >= v
    ensures var r' := Changed(r, i, InsertAt(r.lists[i], m, v), m + 1, r.blocks + {v});
            SmallOk(r', size, color) && AllSwept(r', color, v + 1) && (|r.lists[i]| > m ==> r.bits[i - 1])
  {
    var s := r.lists[i];
    ListFacts(r, size, color, i);
    assert SweptList(r, color, i, front);
    InsertedInOrder(r, size, color, i, m, v);
    ChangedOk(r, size, color, i, InsertAt(s, m, v), m + 1, r.blocks + {v});
    InsertedSwept(color, s, m, v, r.merge[i]);
    LaterFront(r, color, front, v + 1);
    ChangedSwept(r, color, i, InsertAt(s, m, v), m + 1, r.blocks + {v}, v + 1);
  }

  lemma InsertedInOrder(r: Lists, size: Sizes, color: map<Addr, Color>, i: nat, m: nat, v: Addr)
    requires Shaped(r) && 1 <= i <= BF_NUM_SMALL && ListOk(r, size, color, i) && v != NULL
    requires v !in r.lists[i] && v in size && size[v] == i && IsBlue(color, v)
    requires m <= |r.lists[i]| && (forall k :: 0 <= k < m ==> r.lists[i][k] < v)
             && (m < |r.lists[i]| ==> r.lists[i][m] >= v)
    requires forall k :: m <= k < |r.lists[i]| ==> IsBlue(color, r.lists[i][k])
    ensures Ordered(color, InsertAt(r.lists[i], m, v)) && OfSize(size, InsertAt(r.lists[i], m, v), i)
    ensures forall x :: x in InsertAt(r.lists[i], m, v) <==> x in r.lists[i] || x == v
  {
    var s := r.lists[i];
    assert m < |s| ==> s[m] in s && s[m] != v;
    InsertOrdered(color, s, m, v);
  }

  /** The lists without the block at place `m` of list `i`, where the sweeper now is. */
  ghost function WithoutAt(r: Lists, i: nat, m: nat): Lists
    requires Shaped(r) && 1 <= i <= BF_NUM_SMALL && m < |r.lists[i]|
  {
    Changed(r, i, RemoveAt(r.lists[i], m), m, r.blocks - {r.lists[i][m]})
  }

  lemma SweepRemoved(r: Lists, size: Sizes, color: map<Addr, Color>, i: nat, m: nat, v: Addr, front: Addr)
    requires SmallOk(r, size, color) && AllSwept(r, color, front) && front <= v && 1 <= i <= BF_NUM_SMALL
    requires r.merge[i] <= m < |r.lists[i]| && r.lists[i][m] == v
    ensures SmallOk(WithoutAt(r, i, m), size, color) && AllSwept(WithoutAt(r, i, m), color, v) && r.bits[i - 1]
  {
    var s := r.lists[i];
    ListFacts(r, size, color, i);
    RemoveOrdered(color, s, m);
    ChangedOk(r, size, color, i, RemoveAt(s, m), m, r.blocks - {v});
    assert SweptList(r, color, i, front);
    RemovedSwept(color, s, m, r.merge[i]);
    LaterFront(r, color, front, v);
    ChangedSwept(r, color, i, RemoveAt(s, m), m, r.blocks - {v}, v);
  }

  lemma InsertedSwept(color: map<Addr, Color>, s: seq<Addr>, m: nat, v: Addr, at: nat)
    requires at <= m <= |s| && (forall k :: 0 <= k < m ==> s[k] < v)
    requires forall k :: at <= k < |s| ==> IsBlue(color, s[k])
    ensures Swept(color, InsertAt(s, m, v), m + 1, v + 1)
  {
    var u := InsertAt(s, m, v);
    assert forall k :: 0 <= k < |u| ==> u[k] == if k < m then s[k] else if k == m then v else s[k - 1];
  }

  lemma RemovedSwept(color: map<Addr, Color>, s: seq<Addr>, m: nat, at: nat)
    requires at <= m < |s| && Ordered(color, s) && (forall k :: 0 <= k < at ==> s[k] < s[m])
    requires forall k :: at <= k < |s| ==> IsBlue(color, s[k])
    ensures Swept(color, RemoveAt(s, m), m, s[m])
  {
    var u := RemoveAt(s, m);
    assert forall k :: 0 <= k < |u| ==> u[k] == s[if k < m then k else k + 1];
    assert forall k :: at <= k < m ==> s[k] < s[m];
  }

  lemma PushOrdered(color: map<Addr, Color>, s: seq<Addr>, v: Addr)
    requires Ordered(color, s) && v !in s && IsWhite(color, v)
    ensures Ordered(color, [v] + s)
  {
  }
}
