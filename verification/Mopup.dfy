// Finishing the blocks on the to-do list, and what a whole minor collection
// amounts to.

module Mopup {
  import opened Basics
  import opened MinorHeap
  import opened Oldify

  ghost predicate Ready(y: map<Addr, YoungBlock>, base: Addr, live: set<Addr>, s: State, f: Forwarding, l: seq<Addr>) {
    && WellFormed(y) && YoungClosed(y, live) && Copies(y, base, s, f) && f.Keys <= live
    && TodoList(y, s, f, s.todo, l)
  }

  /** The result of caml_oldify_one on value `v` and slot `p`. */
  ghost predicate Oldified(y: map<Addr, YoungBlock>, base: Addr, live: set<Addr>, s: State, f: Forwarding,
                           t: State, g: Forwarding, v: Value, p: Slot, pushed: seq<Addr>, l: seq<Addr>)
  {
    && Copies(y, base, t, g) && g.Keys <= live
    && Progress(y, s, f, t, g, p, pushed, l)
    && IsSlot(t, p) && Moved(g, v, Get(t, p))
  }

  /** Every forwarded block outside the to-do list, except `c`, is finished. */
  ghost predicate Finished(y: map<Addr, YoungBlock>, s: State, f: Forwarding, l: seq<Addr>, c: set<Addr>) {
    forall a :: a in f && a in y && a !in l && a !in c ==> AllFinal(y, s, f, a)
  }

  /** A call on a slot of the roots, of an older block, or of `c` finishes what it does not push. */
  lemma OldifiedFinished(y: map<Addr, YoungBlock>, base: Addr, live: set<Addr>, s: State, f: Forwarding,
                         t: State, g: Forwarding, v: Value, p: Slot, pushed: seq<Addr>, l: seq<Addr>, c: set<Addr>)
    requires Ready(y, base, live, s, f, l) && Finished(y, s, f, l, c)
    requires Oldified(y, base, live, s, f, t, g, v, p, pushed, l)
    requires p.Field? && base <= p.r ==> exists a :: a in c && a in f && f[a] == p.r
    ensures Finished(y, t, g, pushed + l, c)
  {
    forall a | a in g && a in y && a !in pushed + l && a !in c ensures AllFinal(y, t, g, a) {
      if a in f {
        assert Copied(y, base, s, f, a);
        FinalKept(y, base, s, f, t, g, p, a);
      }
    }
  }

  lemma FinalKept(y: map<Addr, YoungBlock>, base: Addr, s: State, f: Forwarding, t: State, g: Forwarding, p: Slot,
      a: Addr)
    requires a in f && a in y && AllFinal(y, s, f, a) && Copied(y, base, s, f, a)
    requires Extends(f, g) && Preserved(s, t, p) && (p.Field? ==> p.r != f[a])
    ensures AllFinal(y, t, g, a)
  {
    assert t.major[f[a]].fields == s.major[f[a]].fields;
    forall i | 0 <= i < |y[a].fields| ensures Final(y, t, g, a, i) { assert Final(y, s, f, a, i); }
  }

  // ---------------------------------------------------------------- scanning one block

  /** Block `c` was taken off the list; its fields below `i` are final, field 0 is at least raw. */
  ghost predicate Scanning(y: map<Addr, YoungBlock>, base: Addr, live: set<Addr>, s: State, f: Forwarding, c: Addr,
      i: nat, l: seq<Addr>) {
    && Ready(y, base, live, s, f, l) && c in f && c in y && c !in l && Copied(y, base, s, f, c)
    && Finished(y, s, f, l, {c})
    && i <= |y[c].fields|
    && (i == 0 ==> s.major[f[c]].fields[0] == y[c].fields[0])
    && forall j :: 0 <= j < i ==> Final(y, s, f, c, j)
  }

  lemma StartScan(y: map<Addr, YoungBlock>, base: Addr, live: set<Addr>, s: State, f: Forwarding, l: seq<Addr>)
    requires Ready(y, base, live, s, f, l) && Finished(y, s, f, l, {}) && l != []
    ensures s.todo == Young(l[0], 0) && l[0] in f && Copied(y, base, s, f, l[0]) && |s.major[f[l[0]]].fields| > 1
    ensures Scanning(y, base, live, s.(todo := s.major[f[l[0]]].fields[1]), f, l[0], 0, l[1..])
  {
    var c, t := l[0], s.(todo := s.major[f[l[0]]].fields[1]);
    assert Copied(y, base, s, f, c);
    LinkCopies(y, base, s, f, t.todo);
    TodoFrame(y, s, f, t, f, t.todo, l[1..]);
    forall a | a in f && a in y && a !in l[1..] && a !in {c} ensures AllFinal(y, t, f, a) {
      assert a !in l;
      assert Copied(y, base, s, f, a);
      FinalFrame(y, s, f, t, f, a);
    }
  }

  /** Field `i` of the block being scanned is oldified. */
  lemma ScanYoung(y: map<Addr, YoungBlock>, base: Addr, live: set<Addr>, s: State, f: Forwarding, c: Addr, i: nat,
      l: seq<Addr>,
                  t: State, g: Forwarding, pushed: seq<Addr>)
    requires Scanning(y, base, live, s, f, c, i, l) && i < |y[c].fields|
    requires Oldified(y, base, live, s, f, t, g, y[c].fields[i], Field(f[c], i), pushed, l)
    ensures Scanning(y, base, live, t, g, c, i + 1, pushed + l)
  {
    OldifiedFinished(y, base, live, s, f, t, g, y[c].fields[i], Field(f[c], i), pushed, l, {c});
    assert Copied(y, base, t, g, c);
    forall j | 0 <= j < i + 1 ensures Final(y, t, g, c, j) {
      if j < i { assert Final(y, s, f, c, j); }
    }
  }

  lemma ScanReady(y: map<Addr, YoungBlock>, base: Addr, live: set<Addr>, s: State, f: Forwarding, c: Addr, i: nat,
      l: seq<Addr>)
    requires Scanning(y, base, live, s, f, c, i, l) && i < |y[c].fields|
    ensures IsSlot(s, Field(f[c], i)) && Apart(f, Field(f[c], i), l)
    ensures GoodValue(y, y[c].fields[i]) && (y[c].fields[i].Young? ==> y[c].fields[i].a in live)
    ensures s.young[c].fields[0] == Major(f[c], 0) && (i > 0 ==> s.young[c].fields[i] == y[c].fields[i])
  {
    assert Copied(y, base, s, f, c);
  }

  /** A field without a young pointer is copied as it is. */
  lemma ScanOther(y: map<Addr, YoungBlock>, base: Addr, live: set<Addr>, s: State, f: Forwarding, c: Addr, i: nat,
      l: seq<Addr>)
    requires Scanning(y, base, live, s, f, c, i, l) && i < |y[c].fields| && !y[c].fields[i].Young?
    ensures IsSlot(s, Field(f[c], i))
    ensures Scanning(y, base, live, Set(s, Field(f[c], i), y[c].fields[i]), f, c, i + 1, l)
  {
    ScanReady(y, base, live, s, f, c, i, l);
    var p, w := Field(f[c], i), y[c].fields[i];
    SetProgress(y, s, f, p, w, l);
    SetCopies(y, base, s, f, p, w);
    GetSet(s, p, w, p);
    ScanYoung(y, base, live, s, f, c, i, l, Set(s, p, w), f, []);
    assert [] + l == l;
  }

  lemma EndScan(y: map<Addr, YoungBlock>, base: Addr, live: set<Addr>, s: State, f: Forwarding, c: Addr, l: seq<Addr>)
    requires c in y && Scanning(y, base, live, s, f, c, |y[c].fields|, l)
    ensures Finished(y, s, f, l, {})
  {
    assert AllFinal(y, s, f, c);
  }

  // ---------------------------------------------------------------- slots that existed before

  ghost predicate CarriedSlot(s0: State, s: State, f: Forwarding, d: set<Slot>, q: Slot)
    requires IsSlot(s0, q) && IsSlot(s, q)
  {
    if q in d then Moved(f, Get(s0, q), Get(s, q)) else Get(s, q) == Get(s0, q)
  }

  /** The slots of `s0` in `d` hold their moved values, the others their old ones; no block that
      existed before appears or disappears. */
  ghost predicate Carried(s0: State, s: State, f: Forwarding, d: set<Slot>) {
    && (forall q :: IsSlot(s0, q) ==> IsSlot(s, q) && CarriedSlot(s0, s, f, d, q))
    && |s.roots| == |s0.roots| && (forall r :: r in s0.major ==> r in s.major)
    && forall r :: r in s.major && r < s0.top ==>
         r in s0.major && s.major[r].scan == s0.major[r].scan && |s.major[r].fields| == |s0.major[r].fields|
  }

  lemma CarriedOldified(s0: State, s: State, f: Forwarding, t: State, g: Forwarding, d: set<Slot>, p: Slot, v: Value)
    requires Carried(s0, s, f, d) && Extends(f, g) && Preserved(s, t, p) && (forall r :: r in s0.major ==> r < s0.top)
    requires IsSlot(s0, p) && IsSlot(t, p) && v == Get(s, p) && Moved(g, v, Get(t, p))
    requires s0.top <= s.top
    ensures Carried(s0, t, g, d + {p})
  {
    forall q | IsSlot(s0, q)
      ensures IsSlot(t, q)
      ensures CarriedSlot(s0, t, g, d + {p}, q)
    {
      PreservedGet(s, t, p, q);
    }
  }

  lemma PreservedGet(s: State, t: State, p: Slot, q: Slot)
    requires Preserved(s, t, p) && IsSlot(s, q)
    ensures IsSlot(t, q) && (q != p ==> Get(t, q) == Get(s, q))
  {
  }

  /** Writing to copies only leaves the slots that existed before alone. */
  lemma CarriedCopies(s0: State, s: State, f: Forwarding, t: State, g: Forwarding, d: set<Slot>, p: Slot)
    requires Carried(s0, s, f, d) && Extends(f, g) && Preserved(s, t, p) && !IsSlot(s0, p)
    requires s0.top <= s.top
    ensures Carried(s0, t, g, d)
  {
    forall q | IsSlot(s0, q)
      ensures IsSlot(t, q)
      ensures CarriedSlot(s0, t, g, d, q)
    {
      PreservedGet(s, t, p, q);
    }
  }

  // ---------------------------------------------------------------- the whole collection

  /** A heap in which a minor collection can start: nothing is forwarded and every pointer is good. */
  ghost predicate Startable(s: State) {
    && WellFormed(s.young) && s.todo == NIL
    && (forall r :: r in s.major ==> r < s.top)
    && forall q :: IsSlot(s, q) ==> GoodValue(s.young, Get(s, q))
  }

  /** The invariant caml_modify keeps: a major slot holding a young pointer is in the ref table. */
  ghost predicate AllRemembered(s: State, refTable: seq<Slot>) {
    forall r, i :: IsSlot(s, Field(r, i)) && Get(s, Field(r, i)).Young? ==> Field(r, i) in refTable
  }

  ghost predicate Roots(s: State, refTable: seq<Slot>, a: Addr) {
    exists q :: IsSlot(s, q) && (q.Root? || q in refTable) && Get(s, q).Young? && Get(s, q).a == a
  }

  ghost predicate YoungEdge(y: map<Addr, YoungBlock>, a: Addr, b: Addr) {
    a in y && exists i :: 0 <= i < |y[a].fields| && y[a].fields[i].Young? && y[a].fields[i].a == b
  }

  ghost predicate YoungPath(y: map<Addr, YoungBlock>, p: seq<Addr>) {
    p != [] && forall k :: 0 <= k < |p| - 1 ==> YoungEdge(y, p[k], p[k + 1])
  }

  ghost predicate YoungReachable(s: State, refTable: seq<Slot>, a: Addr) {
    exists p :: YoungPath(s.young, p) && Roots(s, refTable, p[0]) && p[|p| - 1] == a
  }

  ghost function YoungLive(s: State, refTable: seq<Slot>): set<Addr> {
    set a | a in s.young && YoungReachable(s, refTable, a)
  }

  lemma EdgeExtends(s: State, refTable: seq<Slot>, a: Addr, b: Addr)
    requires YoungReachable(s, refTable, a) && YoungEdge(s.young, a, b)
    ensures YoungReachable(s, refTable, b)
  {
    var p :| YoungPath(s.young, p) && Roots(s, refTable, p[0]) && p[|p| - 1] == a;
    var q := p + [b];
    assert forall k :: 0 <= k < |p| ==> q[k] == p[k];
    assert YoungPath(s.young, q) && q[|q| - 1] == b && q[0] == p[0];
  }

  lemma YoungLiveClosed(s: State, refTable: seq<Slot>)
    requires Startable(s)
    ensures YoungClosed(s.young, YoungLive(s, refTable))
    ensures forall a :: Roots(s, refTable, a) ==> a in YoungLive(s, refTable)
  {
    forall a | Roots(s, refTable, a) ensures a in YoungLive(s, refTable) {
      assert YoungPath(s.young, [a]) && [a][0] == a;
    }
    forall a, i | a in YoungLive(s, refTable) && a in s.young && 0 <= i < |s.young[a].fields| && s.young[a].fields[i].Young?
      ensures s.young[a].fields[i].a in YoungLive(s, refTable)
    {
      assert GoodValue(s.young, s.young[a].fields[i]);
      assert YoungEdge(s.young, a, s.young[a].fields[i].a);
      EdgeExtends(s, refTable, a, s.young[a].fields[i].a);
    }
  }

  /** A closed set that contains the roots contains everything reachable. */
  lemma {:induction false} YoungLiveLeast(s: State, refTable: seq<Slot>, c: set<Addr>, p: seq<Addr>, k: nat)
    requires YoungClosed(s.young, c) && (forall a :: Roots(s, refTable, a) ==> a in c)
    requires YoungPath(s.young, p) && Roots(s, refTable, p[0]) && k < |p|
    ensures p[k] in c
  {
    if k > 0 {
      YoungLiveLeast(s, refTable, c, p, k - 1);
      assert YoungEdge(s.young, p[k - 1], p[k - 1 + 1]);
    }
  }

  /** What a minor collection that started in `s` has done when it ends in `t`. */
  ghost predicate Collected(s: State, refTable: seq<Slot>, t: State, f: Forwarding) {
    && Copies(s.young, s.top, t, f) && f.Keys == YoungLive(s, refTable)
    && (forall a :: a in f && a in s.young ==> AllFinal(s.young, t, f, a))
    && (forall q :: IsSlot(s, q) ==> IsSlot(t, q) && Moved(f, Get(s, q), Get(t, q)))
    && |t.roots| == |s.roots|
    && (forall r :: r in s.major ==> r in t.major)
    && forall r :: r in t.major && r < s.top ==> r in s.major && t.major[r].scan == s.major[r].scan && |t.major[r].fields| == |s.major[r].fields|
  }

  lemma CollectedFrom(s: State, refTable: seq<Slot>, t: State, f: Forwarding, d: set<Slot>)
    requires Startable(s) && AllRemembered(s, refTable)
    requires Copies(s.young, s.top, t, f) && f.Keys <= YoungLive(s, refTable) && Finished(s.young, t, f, [], {})
    requires Carried(s, t, f, d) && forall q :: IsSlot(s, q) && (q.Root? || q in refTable) ==> q in d
    ensures Collected(s, refTable, t, f)
  {
    SlotsMoved(s, refTable, t, f, d);
    ExactlyLive(s, refTable, t, f);
  }

  /** Exactly the reachable young blocks were forwarded. */
  lemma ExactlyLive(s: State, refTable: seq<Slot>, t: State, f: Forwarding)
    requires Copies(s.young, s.top, t, f) && Finished(s.young, t, f, [], {}) && f.Keys <= YoungLive(s, refTable)
    requires forall q :: IsSlot(s, q) ==> IsSlot(t, q) && Moved(f, Get(s, q), Get(t, q))
    ensures f.Keys == YoungLive(s, refTable)
  {
    ForwardedClosed(s, t, f);
    RootsForwarded(s, refTable, t, f);
    AllLiveForwarded(s, refTable, f.Keys);
  }

  lemma AllLiveForwarded(s: State, refTable: seq<Slot>, c: set<Addr>)
    requires YoungClosed(s.young, c) && forall b :: Roots(s, refTable, b) ==> b in c
    ensures YoungLive(s, refTable) <= c
  {
    forall a | a in YoungLive(s, refTable) ensures a in c {
      LiveForwarded(s, refTable, c, a);
    }
  }

  lemma RootsForwarded(s: State, refTable: seq<Slot>, t: State, f: Forwarding)
    requires forall q :: IsSlot(s, q) ==> IsSlot(t, q) && Moved(f, Get(s, q), Get(t, q))
    ensures forall a :: Roots(s, refTable, a) ==> a in f
  {
    forall a | Roots(s, refTable, a) ensures a in f {
      var q :| IsSlot(s, q) && (q.Root? || q in refTable) && Get(s, q).Young? && Get(s, q).a == a;
      assert Moved(f, Get(s, q), Get(t, q));
    }
  }

  lemma LiveForwarded(s: State, refTable: seq<Slot>, c: set<Addr>, a: Addr)
    requires YoungClosed(s.young, c) && (forall b :: Roots(s, refTable, b) ==> b in c) && YoungReachable(s, refTable, a)
    ensures a in c
  {
    var p :| YoungPath(s.young, p) && Roots(s, refTable, p[0]) && p[|p| - 1] == a;
    YoungLiveLeast(s, refTable, c, p, |p| - 1);
  }

  lemma SlotsMoved(s: State, refTable: seq<Slot>, t: State, f: Forwarding, d: set<Slot>)
    requires AllRemembered(s, refTable) && Carried(s, t, f, d)
    requires forall q :: IsSlot(s, q) && (q.Root? || q in refTable) ==> q in d
    ensures forall q :: IsSlot(s, q) ==> IsSlot(t, q) && Moved(f, Get(s, q), Get(t, q))
  {
    forall q | IsSlot(s, q) ensures IsSlot(t, q) && Moved(f, Get(s, q), Get(t, q)) {
      assert CarriedSlot(s, t, f, d, q);
    }
  }

  lemma ForwardedClosed(s: State, t: State, f: Forwarding)
    requires Copies(s.young, s.top, t, f) && Finished(s.young, t, f, [], {})
    ensures YoungClosed(s.young, f.Keys)
  {
    forall a, i | a in f.Keys && a in s.young && 0 <= i < |s.young[a].fields| && s.young[a].fields[i].Young?
      ensures s.young[a].fields[i].a in f.Keys
    {
      assert AllFinal(s.young, t, f, a);
      assert Final(s.young, t, f, a, i);
    }
  }

  /** After a minor collection no root and no major block holds a young pointer. */
  lemma NoYoungPointerLeft(s: State, refTable: seq<Slot>, t: State, f: Forwarding, q: Slot)
    requires Startable(s) && Collected(s, refTable, t, f) && IsSlot(t, q)
    ensures !Get(t, q).Young?
  {
    if q.Field? && s.top <= q.r {
      assert IsCopy(f, q.r);
      var a :| a in f && f[a] == q.r;
      assert Copied(s.young, s.top, t, f, a);
      assert Final(s.young, t, f, a, q.i);
    } else {
      assert IsSlot(s, q);
    }
  }

  // ---------------------------------------------------------------- the graph read by the mutator

  /** Following field selectors from a value; None when the path leaves the heap. */
  datatype Reading = Value(v: MinorHeap.Value) | Nothing

  ghost function Follow(s: State, v: MinorHeap.Value, path: seq<nat>): Reading
    decreases |path|
  {
    if path == [] then Value(v)
    else match v
      case Int(_) => Nothing
      case Young(a, off) => if a in s.young && off + path[0] < |s.young[a].fields| then Follow(s, s.young[a].fields[off + path[0]], path[1..]) else Nothing
      case Major(r, off) => if r in s.major && off + path[0] < |s.major[r].fields| then Follow(s, s.major[r].fields[off + path[0]], path[1..]) else Nothing
  }

  ghost predicate SameReading(s: State, f: Forwarding, x: Reading, y: Reading) {
    (x.Nothing? && y.Nothing?) || (x.Value? && y.Value? && Moved(f, x.v, y.v))
  }

  /** Pointers into the major heap lead to its blocks. */
  ghost predicate Grounded(s: State) {
    && (forall a, i :: a in s.young && 0 <= i < |s.young[a].fields| ==> InMajor(s, s.young[a].fields[i]))
    && forall q :: IsSlot(s, q) ==> InMajor(s, Get(s, q))
  }

  ghost predicate InMajor(s: State, v: MinorHeap.Value) {
    v.Major? ==> v.r in s.major
  }

  /** Reading one field: both heaps have it or neither has, and the contents correspond. */
  lemma SameField(s: State, refTable: seq<Slot>, t: State, f: Forwarding, v: MinorHeap.Value, w: MinorHeap.Value,
      i: nat)
    requires Startable(s) && Grounded(s) && Collected(s, refTable, t, f) && Moved(f, v, w) && InMajor(s, v)
    ensures var x, y := Follow(s, v, [i]), Follow(t, w, [i]); SameReading(s, f, x, y) && (x.Value? ==> InMajor(s, x.v))
  {
    FollowOne(s, v, i);
    FollowOne(t, w, i);
    if v.Young? {
      SameYoungField(s, t, f, v.a, v.off + i);
    } else if v.Major? {
      SameMajorField(s, t, f, v.r, v.off + i);
    }
  }

  lemma SameMajorField(s: State, t: State, f: Forwarding, r: Addr, i: nat)
    requires r in s.major && r in t.major && |t.major[r].fields| == |s.major[r].fields| && Grounded(s)
    requires forall q :: IsSlot(s, q) ==> IsSlot(t, q) && Moved(f, Get(s, q), Get(t, q))
    ensures i < |s.major[r].fields| ==> Moved(f, s.major[r].fields[i], t.major[r].fields[i]) && InMajor(s, s.major[r].fields[i])
  {
    if i < |s.major[r].fields| {
      assert IsSlot(s, Field(r, i)) && Get(s, Field(r, i)) == s.major[r].fields[i];
    }
  }

  lemma SameYoungField(s: State, t: State, f: Forwarding, a: Addr, i: nat)
    requires Copies(s.young, s.top, t, f) && a in f && a in s.young && AllFinal(s.young, t, f, a)
    ensures f[a] in t.major && |t.major[f[a]].fields| == |s.young[a].fields|
    ensures i < |s.young[a].fields| ==> Moved(f, s.young[a].fields[i], t.major[f[a]].fields[i])
  {
    assert Copied(s.young, s.top, t, f, a);
    if i < |s.young[a].fields| { assert Final(s.young, t, f, a, i); }
  }

  lemma FollowOne(s: State, v: MinorHeap.Value, i: nat)
    ensures Follow(s, v, [i]) ==
              match v
              case Int(_) => Nothing
              case Young(a, off) => if a in s.young && off + i < |s.young[a].fields| then Value(s.young[a].fields[off + i]) else Nothing
              case Major(r, off) => if r in s.major && off + i < |s.major[r].fields| then Value(s.major[r].fields[off + i]) else Nothing
  {
    assert [i][1..] == [];
  }

  lemma FollowStep(s: State, v: MinorHeap.Value, path: seq<nat>)
    requires path != []
    ensures var x := Follow(s, v, [path[0]]); Follow(s, v, path) == if x.Value? then Follow(s, x.v, path[1..]) else Nothing
  {
    assert [path[0]][1..] == [];
  }

  /** The collection is invisible: along every path of field selectors, corresponding values lead
      to corresponding values. */
  lemma {:induction false} SameGraph(s: State, refTable: seq<Slot>, t: State, f: Forwarding, v: MinorHeap.Value,
      w: MinorHeap.Value, path: seq<nat>)
    requires Startable(s) && Grounded(s) && Collected(s, refTable, t, f) && Moved(f, v, w) && InMajor(s, v)
    ensures SameReading(s, f, Follow(s, v, path), Follow(t, w, path))
    decreases |path|
  {
    if path != [] {
      SameField(s, refTable, t, f, v, w, path[0]);
      FollowStep(s, v, path);
      FollowStep(t, w, path);
      var x, y := Follow(s, v, [path[0]]), Follow(t, w, [path[0]]);
      if x.Value? { SameGraph(s, refTable, t, f, x.v, y.v, path[1..]); }
    }
  }
}
