// Open addressing with linear probing, as the frame-descriptor table of the
// native runtime and the position table of the marshaller both use it.
//
// A table is a sequence of slots.  `home` gives the slot where the probe for a
// key starts; probing then moves to the next slot cyclically.

module Probing {
  import opened Basics

  /** Number of forward cyclic moves from slot `a` to slot `b` in a table of `n` slots. */
  function Dist(n: nat, a: nat, b: nat): (d: nat)
    requires a < n && b < n
    ensures d < n
  {
    if a <= b then b - a else b - a + n
  }

  /** The slot after `a`: what `(a + 1) & mask` computes when `mask == n - 1`. */
  function Next(n: nat, a: nat): (r: nat)
    requires a < n
    ensures r < n
  {
    if a + 1 == n then 0 else a + 1
  }

  /** Every home slot is a slot of the table. */
  ghost predicate Homed<K(!new)>(home: K -> nat, n: nat) {
    forall k :: home(k) < n
  }

  ghost predicate Holds<K>(t: seq<Option<K>>, k: K) {
    exists p :: 0 <= p < |t| && t[p] == Some(k)
  }

  /** No key is stored twice. */
  ghost predicate Unique<K>(t: seq<Option<K>>) {
    forall p, q :: 0 <= p < |t| && 0 <= q < |t| && t[p].Some? && t[p] == t[q] ==> p == q
  }

  ghost predicate HasFree<K>(t: seq<Option<K>>) {
    exists p :: 0 <= p < |t| && t[p].None?
  }

  /** Slot `q` is passed by a probe that starts at `h` and ends at `p`. */
  ghost predicate Before(n: nat, h: nat, q: nat, p: nat)
    requires h < n && q < n && p < n
  {
    Dist(n, h, q) < Dist(n, h, p)
  }

  /** All slots passed on the way to a stored key are occupied, except possibly slot `hole`. */
  ghost predicate ReachableBut<K(!new)>(t: seq<Option<K>>, home: K -> nat, hole: int)
    requires Homed(home, |t|)
  {
    forall p, q :: 0 <= p < |t| && 0 <= q < |t| && t[p].Some?
                   && Before(|t|, home(t[p].value), q, p) && q != hole
                   ==> t[q].Some?
  }

  /** The table invariant: every stored key is found by probing from its own home slot. */
  ghost predicate Reachable<K(!new)>(t: seq<Option<K>>, home: K -> nat)
    requires Homed(home, |t|)
  {
    ReachableBut(t, home, -1)
  }

  /** What probing for `k` returns: its slot, or the first free slot on its probe path. */
  ghost predicate Probes<K(!new)>(t: seq<Option<K>>, home: K -> nat, k: K, at: nat)
    requires Homed(home, |t|)
  {
    && at < |t|
    && (t[at] == None || t[at] == Some(k))
    && forall q :: 0 <= q < |t| && Before(|t|, home(k), q, at) ==> t[q].Some? && t[q] != Some(k)
  }

  /** A probe that stops on a free slot proves absence; one that stops on `k` found it. */
  lemma ProbeDecides<K(!new)>(t: seq<Option<K>>, home: K -> nat, k: K, at: nat)
    requires Homed(home, |t|) && Reachable(t, home)
    requires Probes(t, home, k, at)
    ensures Holds(t, k) <==> t[at] == Some(k)
  {
    if Holds(t, k) {
      var p :| 0 <= p < |t| && t[p] == Some(k);
      assert Before(|t|, home(k), at, p) ==> t[at].Some?;
      assert Dist(|t|, home(k), p) == Dist(|t|, home(k), at) ==> p == at;
    }
  }

  /** Filling the free slot a probe ended on adds exactly that key and keeps the invariant. */
  lemma InsertAtProbe<K(!new)>(t: seq<Option<K>>, home: K -> nat, k: K, at: nat)
    requires Homed(home, |t|) && Reachable(t, home) && Unique(t)
    requires Probes(t, home, k, at) && t[at].None?
    ensures Reachable(t[at := Some(k)], home) && Unique(t[at := Some(k)])
    ensures forall x :: Holds(t[at := Some(k)], x) <==> Holds(t, x) || x == k
  {
    var u := t[at := Some(k)];
    ProbeDecides(t, home, k, at);
    assert !Holds(t, k);
    assert u[at] == Some(k);
    forall x ensures Holds(u, x) <==> Holds(t, x) || x == k {
      if Holds(t, x) {
        var p :| 0 <= p < |t| && t[p] == Some(x);
        assert u[p] == Some(x);
      }
      if Holds(u, x) && x != k {
        var p :| 0 <= p < |u| && u[p] == Some(x);
        assert t[p] == Some(x);
      }
    }
    assert forall p :: 0 <= p < |t| ==> t[p] != Some(k);
  }

  /** The cyclic test of `remove_entry`: the entry scanned at `i`, whose home is `r`, may stay
      behind the hole `j`. */
  predicate MayStay(i: nat, j: nat, r: nat) {
    (j < r && r <= i) || (i < j && j < r) || (r <= i && i < j)
  }

  /** The three-way comparison says exactly that the hole is not on the entry's probe path. */
  lemma MayStayMeansNotBefore(n: nat, i: nat, j: nat, r: nat)
    requires i < n && j < n && r < n && i != j
    ensures MayStay(i, j, r) <==> !Before(n, r, j, i)
  {
  }

  /** Between two back-shifts: slot `j` is the hole, the slots after it up to and including `i`
      are occupied, and only entries beyond `i` may have the hole on their probe path. */
  ghost predicate HoleInv<K(!new)>(t: seq<Option<K>>, home: K -> nat, j: nat, i: nat)
    requires Homed(home, |t|)
  {
    && j < |t| && i < |t| && t[j].None?
    && ReachableBut(t, home, j)
    && (forall q :: 0 <= q < |t| && q != j && Before(|t|, j, q, i) ==> t[q].Some?)
    && (forall p :: 0 <= p < |t| && t[p].Some? && Before(|t|, home(t[p].value), j, p)
                    ==> !Before(|t|, j, p, i) && p != i)
  }

  /** Emptying an occupied slot opens a hole there. */
  lemma OpenHole<K(!new)>(t: seq<Option<K>>, home: K -> nat, j: nat)
    requires Homed(home, |t|) && Reachable(t, home) && j < |t|
    ensures HoleInv(t[j := None], home, j, j)
  {
  }

  /** Skipping an entry that may stay extends the scanned run. */
  lemma SkipEntry<K(!new)>(t: seq<Option<K>>, home: K -> nat, j: nat, i: nat, i': nat)
    requires Homed(home, |t|) && HoleInv(t, home, j, i)
    requires i' == Next(|t|, i) && i' != j && t[i'].Some?
    requires i == j || t[i].Some?
    requires MayStay(i', j, home(t[i'].value))
    ensures HoleInv(t, home, j, i')
  {
    MayStayMeansNotBefore(|t|, i', j, home(t[i'].value));
    assert forall q :: 0 <= q < |t| && Before(|t|, j, q, i') ==> q == i || Before(|t|, j, q, i);
  }

  /** Moving an entry into the hole moves the hole to where the entry was. */
  lemma MoveEntry<K(!new)>(t: seq<Option<K>>, home: K -> nat, j: nat, i: nat, i': nat)
    requires Homed(home, |t|) && HoleInv(t, home, j, i)
    requires i' == Next(|t|, i) && i' != j && t[i'].Some?
    requires !MayStay(i', j, home(t[i'].value))
    ensures HoleInv(t[j := t[i']][i' := None], home, i', i')
  {
    var n, u, r := |t|, t[j := t[i']][i' := None], home(t[i'].value);
    MayStayMeansNotBefore(n, i', j, r);
    forall p, q | 0 <= p < n && 0 <= q < n && u[p].Some? && Before(n, home(u[p].value), q, p) && q != i'
      ensures u[q].Some?
    {
      if p == j {
        assert Before(n, r, q, i');
      } else {
        assert u[p] == t[p];
      }
    }
  }

  /** Reaching a free slot closes the hole: the full invariant holds again. */
  lemma CloseHole<K(!new)>(t: seq<Option<K>>, home: K -> nat, j: nat, i: nat, i': nat)
    requires Homed(home, |t|) && HoleInv(t, home, j, i)
    requires i' == Next(|t|, i) && t[i'].None?
    requires i == j || t[i].Some?
    ensures Reachable(t, home)
  {
    var n := |t|;
    forall p | 0 <= p < n && t[p].Some?
      ensures !Before(n, home(t[p].value), j, p)
    {
      assert !Before(n, home(t[p].value), i', p) || i' == j;
    }
  }

  /** Moving one key between slots changes neither the set of keys nor their uniqueness. */
  lemma MoveKeepsKeys<K>(t: seq<Option<K>>, j: nat, i: nat)
    requires j < |t| && i < |t| && i != j && t[j].None? && t[i].Some? && Unique(t)
    ensures Unique(t[j := t[i]][i := None])
    ensures forall k :: Holds(t[j := t[i]][i := None], k) <==> Holds(t, k)
  {
    var u := t[j := t[i]][i := None];
    forall k ensures Holds(u, k) <==> Holds(t, k) {
      if Holds(t, k) {
        var p :| 0 <= p < |t| && t[p] == Some(k);
        assert u[if p == i then j else p] == Some(k);
      }
      if Holds(u, k) {
        var p :| 0 <= p < |u| && u[p] == Some(k);
        assert t[if p == j then i else p] == Some(k);
      }
    }
  }

  /** Emptying the slot of `k` removes `k` and nothing else. */
  lemma EmptyingRemoves<K>(t: seq<Option<K>>, j: nat, k: K)
    requires j < |t| && t[j] == Some(k) && Unique(t)
    ensures Unique(t[j := None])
    ensures forall x :: Holds(t[j := None], x) <==> Holds(t, x) && x != k
  {
    var u := t[j := None];
    forall x ensures Holds(u, x) <==> Holds(t, x) && x != k {
      if Holds(t, x) && x != k {
        var p :| 0 <= p < |t| && t[p] == Some(x);
        assert u[p] == Some(x);
      }
      if Holds(u, x) {
        var p :| 0 <= p < |u| && u[p] == Some(x);
        assert t[p] == Some(x);
      }
    }
  }

  /** Number of occupied slots. */
  ghost function Load<K>(t: seq<Option<K>>): (c: nat)
    ensures c <= |t|
  {
    if t == [] then 0 else Load(t[..|t| - 1]) + (if t[|t| - 1].Some? then 1 else 0)
  }

  lemma {:induction false} LoadUpdate<K>(t: seq<Option<K>>, i: nat, x: Option<K>)
    requires i < |t|
    ensures Load(t[i := x]) == Load(t) - (if t[i].Some? then 1 else 0) + (if x.Some? then 1 else 0)
  {
    var n := |t| - 1;
    if i == n {
      assert t[i := x][..n] == t[..n];
    } else {
      assert t[i := x][..n] == t[..n][i := x];
      LoadUpdate(t[..n], i, x);
    }
  }

  /** A table that is not full has a free slot, so every probe stops. */
  lemma {:induction false} LoadBelowSizeHasFree<K>(t: seq<Option<K>>)
    requires Load(t) < |t|
    ensures HasFree(t)
  {
    var n := |t| - 1;
    if t[n].None? {
      assert t[n].None?;
    } else {
      LoadBelowSizeHasFree(t[..n]);
      var p :| 0 <= p < n && t[..n][p].None?;
      assert t[p].None?;
    }
  }

  lemma {:induction false} LoadEmpty<K>(t: seq<Option<K>>)
    requires forall p :: 0 <= p < |t| ==> t[p].None?
    ensures Load(t) == 0
  {
    if t != [] {
      LoadEmpty(t[..|t| - 1]);
    }
  }
}
