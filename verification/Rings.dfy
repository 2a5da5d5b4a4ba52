// Circular doubly-linked lists of large free blocks of one size (freelist.c).

module Rings {
  import opened Basics
  import opened Trees

  function Succ(i: nat, n: nat): (j: nat)
    requires i < n
    ensures j < n
  {
    if i + 1 == n then 0 else i + 1
  }

  /** The blocks of `s` are linked in this order, the last one to the first. */
  ghost predicate Ring(next: Links, prev: Links, s: seq<Addr>) {
    && s != [] && Distinct(s)
    && (forall i :: 0 <= i < |s| ==> s[i] in next && s[i] in prev)
    && forall i :: 0 <= i < |s| ==> Linked(next, prev, s, i)
  }

  ghost predicate Linked(next: Links, prev: Links, s: seq<Addr>, i: nat)
    requires i < |s| && (forall k :: 0 <= k < |s| ==> s[k] in next && s[k] in prev)
  {
    next[s[i]] == s[Succ(i, |s|)] && prev[s[Succ(i, |s|)]] == s[i]
  }

  /** Following next from `b` leads back to `b` exactly in a ring of one block. */
  lemma SingleRing(next: Links, prev: Links, s: seq<Addr>)
    requires Ring(next, prev, s)
    ensures next[s[0]] == s[0] <==> |s| == 1
    ensures |s| > 1 ==> next[s[0]] == s[1]
    ensures prev[s[0]] == s[|s| - 1]
  {
    assert Linked(next, prev, s, 0) && Linked(next, prev, s, |s| - 1);
  }

  lemma NewRing(next: Links, prev: Links, n: Addr)
    ensures Ring(next[n := n], prev[n := n], [n])
  {
  }

  /** Blocks that are not changed stay linked. */
  lemma RingFrame(next: Links, prev: Links, next': Links, prev': Links, s: seq<Addr>)
    requires Ring(next, prev, s)
    requires forall a :: a in s ==> a in next' && a in prev' && next'[a] == next[a] && prev'[a] == prev[a]
    ensures Ring(next', prev', s)
  {
    forall i | 0 <= i < |s| ensures Linked(next', prev', s, i) {
      assert Linked(next, prev, s, i);
    }
  }

  /** Insertion at the tail of the ring, before its first block. */
  lemma RingAppend(next: Links, prev: Links, s: seq<Addr>, n: Addr)
    requires Ring(next, prev, s) && n !in s
    ensures s[0] in prev
    ensures var x := s[0]; var last := prev[x];
            Ring(next[n := x][last := n], prev[n := last][x := n], s + [n])
  {
    SingleRing(next, prev, s);
    var x, last, u := s[0], prev[s[0]], s + [n];
    var next', prev' := next[n := x][last := n], prev[n := last][x := n];
    forall i | 0 <= i < |u| ensures Linked(next', prev', u, i) {
      if i < |s| - 1 {
        assert Linked(next, prev, s, i);
        assert u[i] == s[i] && u[i + 1] == s[i + 1];
      }
    }
  }

  function Without(s: seq<Addr>, i: nat): seq<Addr>
    requires i < |s|
  {
    s[..i] + s[i + 1..]
  }

  /** The two assignments that unlink a block. */
  lemma RingRemove(next: Links, prev: Links, s: seq<Addr>, i: nat)
    requires Ring(next, prev, s) && i < |s| && |s| > 1
    ensures s[i] in next && s[i] in prev
    ensures var b := s[i];
            Ring(next[prev[b] := next[b]], prev[next[b] := prev[b]], Without(s, i)) && b !in Without(s, i)
  {
    var b, u, n := s[i], Without(s, i), |s|;
    var j := if i == 0 then n - 1 else i - 1;
    assert Linked(next, prev, s, i) && Linked(next, prev, s, j);
    assert next[b] == s[Succ(i, n)] && prev[b] == s[j];
    var next', prev' := next[prev[b] := next[b]], prev[next[b] := prev[b]];
    assert forall k :: 0 <= k < n - 1 ==> u[k] == s[if k < i then k else k + 1];
    forall k | 0 <= k < n - 1 ensures Linked(next', prev', u, k) {
      assert Linked(next, prev, s, if k < i then k else k + 1);
    }
  }
}
