// Sets of global roots as skip lists (globroots.c).

module SkipList {
  /** The address of a root; 0 is the list head as a node, and NULL as a pointer. */
  type Root = nat

  const HEAD: Root := 0
  const NUM_LEVELS: nat := 17

  // ---------------------------------------------------------------- one level

  /** `f` is the first node after `e` among `nodes`, or NULL. */
  ghost predicate NextIs(nodes: set<Root>, e: Root, f: Root) {
    if f == HEAD then forall k :: k in nodes ==> k <= e
    else f in nodes && e < f && forall k :: k in nodes ==> k <= e || f <= k
  }

  /** The chain of one level: every node points to the next larger one. */
  ghost predicate Chain(next: map<Root, Root>) {
    HEAD in next && forall e {:trigger NextIs(next.Keys, e, next[e])} :: e in next ==> NextIs(next.Keys, e, next[e])
  }

  /** `u` is the last node before `r`. */
  ghost predicate Before(nodes: set<Root>, u: Root, r: Root) {
    u in nodes && u < r && forall k :: k in nodes ==> k <= u || r <= k
  }

  lemma ChainNext(next: map<Root, Root>, e: Root)
    requires Chain(next) && e in next
    ensures NextIs(next.Keys, e, next[e])
  {
  }

  lemma ChainInsert(next: map<Root, Root>, u: Root, r: Root)
    requires Chain(next) && Before(next.Keys, u, r) && r !in next
    ensures Chain(next[r := next[u]][u := r])
  {
    var next' := next[r := next[u]][u := r];
    ChainNext(next, u);
    forall e | e in next' ensures NextIs(next'.Keys, e, next'[e]) {
      if e in next { ChainNext(next, e); }
    }
  }

  lemma ChainDelete(next: map<Root, Root>, u: Root, r: Root)
    requires Chain(next) && Before(next.Keys, u, r) && r in next
    ensures next[u] == r && Chain(next[u := next[r]] - {r})
  {
    var next' := next[u := next[r]] - {r};
    ChainNext(next, u);
    ChainNext(next, r);
    forall e | e in next' ensures NextIs(next'.Keys, e, next'[e]) {
      ChainNext(next, e);
    }
  }

  // ---------------------------------------------------------------- the random level

  function Pow4(k: nat): nat {
    if k == 0 then 1 else 4 * Pow4(k - 1)
  }

  lemma {:induction false} Pow4Bound(k: nat)
    requires k >= 16
    ensures Pow4(k) >= 0x1_0000_0000
    decreases k
  {
    if k > 16 { Pow4Bound(k - 1); } else { assert Pow4(8) == 0x1_0000; assert Pow4(12) == 0x100_0000; assert Pow4(16) == 0x1_0000_0000; }
  }

  class Random {
    var seed: nat

    constructor ()
      ensures seed == 0
    {
      seed := 0;
    }

    /** random_level: below NUM_LEVELS for every seed, for the distance of `r` from 2^32 quadruples in
        each turn. */
    method RandomLevel() returns (level: nat)
      modifies this
      ensures level < NUM_LEVELS && seed < 0x1_0000_0000
      ensures seed == (old(seed) * 69069 + 25173) % 0x1_0000_0000
    {
      seed := (seed * 69069 + 25173) % 0x1_0000_0000;
      var r := seed;
      level := 0;
      while r >= 0xC000_0000
        invariant seed == (old(seed) * 69069 + 25173) % 0x1_0000_0000
        invariant r < 0x1_0000_0000 && level <= 16 && Pow4(level) <= 0x1_0000_0000 - r
        decreases 16 - level
      {
        if level == 16 { Pow4Bound(16); }
        level := level + 1;
        r := (r * 4) % 0x1_0000_0000;
      }
    }
  }

  // ---------------------------------------------------------------- the list

  /** forward[i] holds the field forward[i] of every node that has one, and of the head. */
  ghost predicate Linked(forward: seq<map<Root, Root>>) {
    && |forward| == NUM_LEVELS
    && (forall i {:trigger Chain(forward[i])} :: 0 <= i < NUM_LEVELS ==> Chain(forward[i]))
    && forall i {:trigger Nested(forward, i)} :: 0 <= i < NUM_LEVELS - 1 ==> Nested(forward, i)
  }

  /** Nodes of a level belong to the level below. */
  ghost predicate Nested(forward: seq<map<Root, Root>>, i: nat)
    requires i + 1 < |forward|
  {
    forward[i + 1].Keys <= forward[i].Keys
  }

  ghost function Beyond(nodes: set<Root>, e: Root): set<Root> {
    set k | k in nodes && k > e
  }

  class RootList {
    const random: Random
    var forward: seq<map<Root, Root>>
    var level: nat

    ghost predicate Valid()
      reads this
    {
      && Linked(forward) && level < NUM_LEVELS
      && (forall i {:trigger forward[i]} :: level < i < NUM_LEVELS ==> forward[i].Keys == {HEAD})
      && (level == 0 || forward[level].Keys != {HEAD})
    }

    /** The roots in the list. */
    ghost function Roots(): set<Root>
      reads this
      requires Valid()
    {
      forward[0].Keys - {HEAD}
    }

    constructor (random: Random)
      ensures Valid() && Roots() == {} && this.random == random
    {
      this.random := random;
      forward := seq(NUM_LEVELS, _ => map[HEAD := HEAD]);
      level := 0;
    }

    lemma HigherNodes(i: nat, j: nat)
      requires Linked(forward) && i <= j < NUM_LEVELS
      ensures forward[j].Keys <= forward[i].Keys
      decreases j
    {
      if i < j {
        HigherNodes(i, j - 1);
        assert Nested(forward, j - 1);
      }
    }

    /** The search shared by insertion and deletion: the last node before `r` on every level. */
    method Find(r: Root) returns (e: Root, update: array<Root>)
      requires Valid() && r != HEAD
      ensures fresh(update) && update.Length == NUM_LEVELS
      ensures forall j :: 0 <= j <= level ==> Before(forward[j].Keys, update[j], r)
      ensures e == r <==> r in Roots()
    {
      update := new Root[NUM_LEVELS](_ => HEAD);
      e := HEAD;
      assert Chain(forward[0]) && Chain(forward[level]);
      var i: int := level;
      while i >= 0
        invariant -1 <= i <= level && e < r && e in forward[if i >= 0 then i else 0] && e in forward[0]
        invariant forall j :: i < j <= level ==> Before(forward[j].Keys, update[j], r)
        invariant i < level ==> e == update[i + 1]
      {
        e := LastBefore(i, e, r);
        HigherNodes(0, i);
        if i > 0 { HigherNodes(i - 1, i); }
        update[i] := e;
        i := i - 1;
      }
      ChainNext(forward[0], e);
      e := forward[0][e];
    }

    /** while (1) { f = e->forward[i]; if (f == NULL || f->root >= r) break; e = f; } */
    method LastBefore(i: nat, e0: Root, r: Root) returns (e: Root)
      requires Valid() && i < NUM_LEVELS && e0 in forward[i] && e0 < r
      ensures Before(forward[i].Keys, e, r)
    {
      e := e0;
      var next := forward[i];
      assert Chain(forward[i]);
      ChainNext(next, e);
      var f := next[e];
      while f != HEAD && f < r
        invariant e in next && e < r && f == next[e]
        decreases r - e
      {
        ChainNext(next, e);
        e := f;
        ChainNext(next, e);
        f := next[e];
      }
      ChainNext(next, e);
    }

    /** caml_insert_global_root */
    method Insert(r: Root)
      requires Valid() && r != HEAD
      modifies this, random
      ensures Valid() && Roots() == old(Roots()) + {r}
    {
      var e, update := Find(r);
      if e == r { return; }
      forall j | 0 <= j < NUM_LEVELS ensures r !in forward[j] { HigherNodes(0, j); }
      forall j | level < j < NUM_LEVELS ensures Before(forward[j].Keys, HEAD, r) { assert forward[j].Keys == {HEAD}; }
      var newLevel := random.RandomLevel();
      if newLevel > level {
        var i := level + 1;
        while i <= newLevel
          invariant level < i <= newLevel + 1
          invariant forall j :: 0 <= j < i ==> 0 <= j <= newLevel ==> Before(forward[j].Keys, update[j], r)
          modifies update
        {
          update[i] := HEAD;
          i := i + 1;
        }
        level := newLevel;
      }
      Link(r, newLevel, update);
    }

    /** for (i = 0; i <= new_level; i++): the new node enters every level up to its own. */
    method Link(r: Root, newLevel: nat, update: array<Root>)
      requires Linked(forward) && newLevel <= level < NUM_LEVELS && r != HEAD && update.Length == NUM_LEVELS
      requires forall j :: 0 <= j <= newLevel ==> Before(forward[j].Keys, update[j], r)
      requires forall j :: 0 <= j < NUM_LEVELS ==> r !in forward[j]
      requires forall j :: level < j < NUM_LEVELS ==> forward[j].Keys == {HEAD}
      requires level == 0 || level == newLevel || forward[level].Keys != {HEAD}
      modifies `forward
      ensures Valid() && Roots() == old(forward[0].Keys) - {HEAD} + {r}
    {
      var i := 0;
      while i <= newLevel
        invariant 0 <= i <= newLevel + 1 && Linked(forward)
        invariant forall j :: 0 <= j < NUM_LEVELS ==> forward[j].Keys == old(forward[j].Keys) + if j < i then {r} else {}
        invariant forall j :: i <= j < NUM_LEVELS ==> forward[j] == old(forward)[j]
      {
        LinkLevel(r, i, update[i]);
        i := i + 1;
      }
    }

    /** One level: the new node takes the successor of its predecessor. */
    method LinkLevel(r: Root, i: nat, u: Root)
      requires Linked(forward) && i < NUM_LEVELS && Before(forward[i].Keys, u, r) && r !in forward[i] && r != HEAD
      requires forall j :: 0 <= j < i ==> r in forward[j]
      modifies `forward
      ensures Linked(forward) && forward == old(forward)[i := forward[i]]
              && forward[i].Keys == old(forward)[i].Keys + {r}
    {
      ghost var f := forward;
      assert Chain(f[i]);
      ChainInsert(forward[i], u, r);
      forward := forward[i := forward[i][r := forward[i][u]][u := r]];
      forall j | 0 <= j < NUM_LEVELS - 1 ensures Nested(forward, j) { assert Nested(f, j); }
      forall j | 0 <= j < NUM_LEVELS ensures Chain(forward[j]) { assert j != i ==> Chain(f[j]); }
    }

    /** caml_delete_global_root */
    method Delete(r: Root)
      requires Valid() && r != HEAD
      modifies this
      ensures Valid() && Roots() == old(Roots()) - {r}
    {
      var e, update := Find(r);
      if e != r { return; }
      Unlink(r, update);
      while level > 0 && Successor(level) == HEAD
        invariant Linked(forward) && level < NUM_LEVELS
        invariant forall j {:trigger forward[j]} :: level < j < NUM_LEVELS ==> forward[j].Keys == {HEAD}
        decreases level
        modifies `level
      {
        assert Chain(forward[level]);
        ChainNext(forward[level], HEAD);
        level := level - 1;
      }
      assert Chain(forward[level]);
      ChainNext(forward[level], HEAD);
    }

    /** rootlist->forward[i] */
    function Successor(i: nat): Root
      requires |forward| == NUM_LEVELS && i < NUM_LEVELS && Linked(forward)
      reads `forward
    {
      assert Chain(forward[i]);
      forward[i][HEAD]
    }

    /** for (i = 0; i <= level; i++): the node leaves every level where its predecessor points to it. */
    method Unlink(r: Root, update: array<Root>)
      requires Valid() && r in Roots() && update.Length == NUM_LEVELS
      requires forall j :: 0 <= j <= level ==> Before(forward[j].Keys, update[j], r)
      modifies `forward
      ensures Linked(forward) && forall j :: 0 <= j < NUM_LEVELS ==> forward[j].Keys == old(forward)[j].Keys - {r}
    {
      ghost var f := forward;
      var i := 0;
      while i <= level
        invariant 0 <= i <= level + 1 && |forward| == NUM_LEVELS
        invariant forall j {:trigger Chain(forward[j])} :: 0 <= j < NUM_LEVELS ==> Chain(forward[j])
        invariant forall j :: 0 <= j < NUM_LEVELS ==> forward[j].Keys == f[j].Keys - if j < i then {r} else {}
        invariant forall j :: i <= j < NUM_LEVELS ==> forward[j] == f[j]
      {
        UnlinkLevel(r, i, update[i]);
        i := i + 1;
      }
      forall j | 0 <= j < NUM_LEVELS - 1 ensures Nested(forward, j) { assert Nested(f, j); }
    }

    method UnlinkLevel(r: Root, i: nat, u: Root)
      requires |forward| == NUM_LEVELS && i < NUM_LEVELS && Before(forward[i].Keys, u, r) && r != HEAD
      requires forall j {:trigger Chain(forward[j])} :: 0 <= j < NUM_LEVELS ==> Chain(forward[j])
      modifies `forward
      ensures |forward| == NUM_LEVELS && forward == old(forward)[i := forward[i]]
              && forward[i].Keys == old(forward)[i].Keys - {r}
      ensures forall j {:trigger Chain(forward[j])} :: 0 <= j < NUM_LEVELS ==> Chain(forward[j])
    {
      ghost var f := forward;
      assert Chain(forward[i]);
      ChainNext(forward[i], u);
      if forward[i][u] == r {
        ChainDelete(forward[i], u, r);
        var rest: map<Root, Root> := forward[i][u := forward[i][r]] - {r};
        forward := forward[i := rest];
      }
      forall j | 0 <= j < NUM_LEVELS ensures Chain(forward[j]) { assert j != i ==> Chain(f[j]); }
    }

    /** caml_iterate_global_roots: the roots in increasing order. */
    method Iterate() returns (visited: seq<Root>)
      requires Valid()
      ensures forall r :: r in visited <==> r in Roots()
      ensures forall i, j :: 0 <= i < j < |visited| ==> visited[i] < visited[j]
    {
      visited := [];
      assert Chain(forward[0]);
      ghost var last := HEAD;
      ChainNext(forward[0], HEAD);
      var gr := forward[0][HEAD];
      while gr != HEAD
        invariant last in forward[0] && gr == forward[0][last]
        invariant forall r :: r in visited <==> r in Roots() && r <= last
        invariant forall i :: 0 <= i < |visited| ==> visited[i] <= last
        invariant forall i, j :: 0 <= i < j < |visited| ==> visited[i] < visited[j]
        decreases Beyond(forward[0].Keys, last)
      {
        assert gr in Beyond(forward[0].Keys, last) by { ChainNext(forward[0], last); }
        ChainNext(forward[0], last);
        ChainNext(forward[0], gr);
        visited := visited + [gr];
        last := gr;
        gr := forward[0][gr];
      }
      ChainNext(forward[0], last);
    }

    /** caml_empty_global_roots */
    method Empty()
      requires Valid()
      modifies this
      ensures Valid() && Roots() == {}
    {
      ghost var f := forward;
      var i := 0;
      while i <= level
        invariant 0 <= i <= level + 1 && |forward| == NUM_LEVELS
        invariant forall j :: 0 <= j < NUM_LEVELS ==> forward[j] == if j < i then map[HEAD := HEAD] else f[j]
        modifies `forward
      {
        forward := forward[i := map[HEAD := HEAD]];
        i := i + 1;
      }
      level := 0;
      forall j | 0 <= j < NUM_LEVELS ensures Chain(forward[j]) && forward[j].Keys == {HEAD} {
        assert Chain(f[j]) && f[j] == f[j];
      }
      forall j | 0 <= j < NUM_LEVELS - 1 ensures Nested(forward, j) { }
    }
  }
}
