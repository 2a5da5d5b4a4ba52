// The splay tree of large free blocks (freelist.c): bf_search, bf_search_best,
// bf_splay, bf_splay_least and bf_remove_node, on the pointer fields of blocks.

module LargeTree {
  import opened Basics
  import opened Trees

  const BF_NUM_SMALL: nat := 16

  type Sizes = map<Addr, nat>

  /** The blocks of `s` have strictly increasing sizes. */
  ghost predicate Sorted(size: Sizes, s: seq<Addr>) {
    && (forall a :: a in s ==> a in size)
    && forall i, j :: 0 <= i < j < |s| ==> size[s[i]] < size[s[j]]
  }

  ghost predicate AllBelow(size: Sizes, s: seq<Addr>, wosz: nat) {
    forall a :: a in s ==> a in size && size[a] < wosz
  }

  ghost predicate AllAbove(size: Sizes, s: seq<Addr>, wosz: nat) {
    forall a :: a in s ==> a in size && size[a] > wosz
  }

  lemma SortedDistinct(size: Sizes, s: seq<Addr>)
    requires Sorted(size, s)
    ensures Distinct(s)
  {
  }

  lemma SortedParts(size: Sizes, a: seq<Addr>, x: Addr, b: seq<Addr>)
    requires Sorted(size, a + [x] + b)
    ensures x in size && AllBelow(size, a, size[x]) && AllAbove(size, b, size[x]) && Sorted(size, a) && Sorted(size, b)
  {
    var s := a + [x] + b;
    assert s[|a|] == x;
    assert forall i :: 0 <= i < |a| ==> s[i] == a[i];
    assert forall i :: 0 <= i < |b| ==> s[|a| + 1 + i] == b[i];
    assert forall y :: y in a || y in b ==> y in s;
  }

  lemma SortedJoin(size: Sizes, a: seq<Addr>, x: Addr, b: seq<Addr>)
    requires x in size && AllBelow(size, a, size[x]) && AllAbove(size, b, size[x]) && Sorted(size, a) && Sorted(size, b)
    ensures Sorted(size, a + [x] + b)
  {
    var s := a + [x] + b;
    forall i, j | 0 <= i < j < |s| ensures size[s[i]] < size[s[j]] {
      assert s[i] == if i < |a| then a[i] else if i == |a| then x else b[i - |a| - 1];
      assert s[j] == if j < |a| then a[j] else if j == |a| then x else b[j - |a| - 1];
    }
  }

  /** The middle of a sorted sequence that is cut in three. */
  lemma SortedMiddle(size: Sizes, a: seq<Addr>, b: seq<Addr>, c: seq<Addr>)
    requires Sorted(size, a + b + c)
    ensures Sorted(size, b) && Sorted(size, a + c)
  {
    var s := a + b + c;
    assert b == s[|a|..|a| + |b|];
    assert forall i :: 0 <= i < |a + c| ==> (a + c)[i] == if i < |a| then s[i] else s[i + |b|];
    assert forall y :: y in a + c || y in b ==> y in s;
  }

  /** Where a search for `wosz` goes on from a node. */
  lemma NodeBounds(size: Sizes, t: Tree)
    requires t.Node? && Sorted(size, InOrder(t))
    ensures t.a in size && AllBelow(size, InOrder(t.left), size[t.a]) && AllAbove(size, InOrder(t.right), size[t.a])
    ensures Sorted(size, InOrder(t.left)) && Sorted(size, InOrder(t.right))
  {
    SortedParts(size, InOrder(t.left), t.a, InOrder(t.right));
  }

  /** Everything in the tree before and after one of its nodes. */
  lemma AtNode(size: Sizes, d: Ctx, t: Tree)
    requires t.Node? && Sorted(size, InOrder(Plug(d, t)))
    ensures t.a in size
    ensures AllBelow(size, Before(d) + InOrder(t.left), size[t.a])
    ensures AllAbove(size, InOrder(t.right) + After(d), size[t.a])
    ensures Before(InRight(d, t.left, t.a)) + InOrder(t.right) == Before(d) + InOrder(t)
    ensures After(InLeft(d, t.a, t.right)) == [t.a] + (InOrder(t.right) + After(d))
  {
    PlugInOrder(d, t);
    FiveParts(Before(d), InOrder(t.left), t.a, InOrder(t.right), After(d));
    SortedParts(size, Before(d) + InOrder(t.left), t.a, InOrder(t.right) + After(d));
  }

  lemma InPlug(d: Ctx, t: Tree)
    requires t.Node?
    ensures t.a in InOrder(Plug(d, t))
  {
    PlugInOrder(d, t);
    assert t.a in InOrder(t);
  }

  /** `sub` is the least node of the tree that is large enough, up to the nodes still to be visited. */
  ghost predicate Best(size: Sizes, wosz: nat, c: Ctx, sub: Tree, d: Ctx, t: Tree) {
    && sub.Node? && sub.a in size && size[sub.a] > wosz
    && AllAbove(size, InOrder(sub.right) + After(c), size[sub.a])
    && Before(c) + InOrder(sub.left) == Before(d) + InOrder(t)
  }

  /** The root has size `wosz`, or it is a neighbour of where a block of that size would be. */
  ghost predicate SplayedAt(size: Sizes, t: Tree, wosz: nat)
    requires t.Node?
  {
    && t.a in size
    && (size[t.a] > wosz ==> AllBelow(size, InOrder(t.left), wosz))
    && (size[t.a] < wosz ==> AllAbove(size, InOrder(t.right), wosz))
  }

  ghost function Size(t: Tree): nat {
    match t case Leaf => 0 case Node(l, _, r) => Size(l) + 1 + Size(r)
  }

  /** The search for `wosz` stops at the root of `t`. */
  ghost predicate Nearest(size: Sizes, t: Tree, wosz: nat) {
    && t.Node? && t.a in size
    && (size[t.a] > wosz ==> t.left.Leaf?) && (size[t.a] < wosz ==> t.right.Leaf?)
  }

  /** Blocks changed by a splaying step belong to the tree. */
  lemma InSplayOrder(s: Splaying)
    requires s.t.Node?
    ensures s.t.a in SplayOrder(s)
    ensures s.t.left.Node? ==> s.t.left.a in SplayOrder(s)
    ensures s.rc.InLeft? ==> s.rc.a in SplayOrder(s)
  {
    var a, b, c := Before(s.lc), InOrder(s.t), After(s.rc);
    assert forall x :: x in b || x in c ==> x in a + b + c;
    assert s.t.a in b;
    if s.t.left.Node? {
      assert s.t.left.a in InOrder(s.t.left) && s.t.left.a in b;
    }
    if s.rc.InLeft? {
      assert s.rc.a in [s.rc.a] + InOrder(s.rc.right) && s.rc.a in c;
    }
  }

  lemma SplayBounds(size: Sizes, s: Splaying)
    requires s.t.Node? && Sorted(size, SplayOrder(s))
    ensures s.t.a in size && AllBelow(size, InOrder(s.t.left), size[s.t.a])
            && AllAbove(size, InOrder(s.t.right), size[s.t.a])
    ensures s.t.left.Node? ==> s.t.left.a in size && AllAbove(size, InOrder(s.t.left.right), size[s.t.left.a])
    ensures s.t.right.Node? ==> s.t.right.a in size && AllBelow(size, InOrder(s.t.right.left), size[s.t.right.a])
  {
    SortedMiddle(size, Before(s.lc), InOrder(s.t), After(s.rc));
    NodeBounds(size, s.t);
    if s.t.left.Node? { NodeBounds(size, s.t.left); }
    if s.t.right.Node? { NodeBounds(size, s.t.right); }
  }

  /** The sizes that linking `s.x` and one of its subtrees puts on the wrong side of `wosz`: none. */
  lemma LinkBounds(size: Sizes, s: Splaying, wosz: nat)
    requires s.t.Node? && Sorted(size, SplayOrder(s))
    requires AllBelow(size, Before(s.lc), wosz) && AllAbove(size, After(s.rc), wosz)
    ensures s.t.a in size && (s.t.left.Node? ==> s.t.left.a in size) && (s.t.right.Node? ==> s.t.right.a in size)
    ensures size[s.t.a] > wosz ==> AllAbove(size, After(InLeft(s.rc, s.t.a, s.t.right)), wosz)
    ensures size[s.t.a] < wosz ==> AllBelow(size, Before(InRight(s.lc, s.t.left, s.t.a)), wosz)
  {
    SplayBounds(size, s);
  }

  /** Where the loop of bf_splay stops, reassembly gives a tree splayed at `wosz`. */
  lemma SplayEnds(size: Sizes, s: Splaying, wosz: nat)
    requires OnlyRight(s.lc) && OnlyLeft(s.rc) && Nearest(size, s.t, wosz)
    requires AllBelow(size, Before(s.lc), wosz) && AllAbove(size, After(s.rc), wosz)
    ensures InOrder(Reassembled(s)) == SplayOrder(s) && SplayedAt(size, Reassembled(s), wosz)
  {
    ReassembledOrder(s);
  }

  lemma SortedPrefix(size: Sizes, a: seq<Addr>, b: seq<Addr>)
    requires Sorted(size, a + b)
    ensures Sorted(size, a) && Sorted(size, b)
  {
    assert a == (a + b)[..|a|] && b == (a + b)[|a|..];
    assert forall x :: x in a || x in b ==> x in a + b;
  }

  lemma DropMiddle(b: seq<Addr>, l: seq<Addr>, r: seq<Addr>, f: seq<Addr>)
    ensures b + (l + r) + f == (b + l) + (r + f)
  {
  }

  lemma SortedWithout(size: Sizes, a: seq<Addr>, x: Addr, b: seq<Addr>)
    requires Sorted(size, a + [x] + b)
    ensures Sorted(size, a + b) && forall y :: y in a + b ==> y in a + [x] + b
  {
    SortedMiddle(size, a, [x], b);
  }

  /** The blocks that remain when a node is taken out. */
  lemma RemovalBounds(size: Sizes, c: Ctx, sub: Tree)
    requires sub.Node? && Sorted(size, InOrder(Plug(c, sub)))
    ensures var s := Before(c) + (InOrder(sub.left) + InOrder(sub.right)) + After(c);
            Sorted(size, s) && Distinct(s) && forall x :: x in s ==> x in InOrder(Plug(c, sub))
  {
    PlugInOrder(c, sub);
    FiveParts(Before(c), InOrder(sub.left), sub.a, InOrder(sub.right), After(c));
    DropMiddle(Before(c), InOrder(sub.left), InOrder(sub.right), After(c));
    var a, b := Before(c) + InOrder(sub.left), InOrder(sub.right) + After(c);
    SortedWithout(size, a, sub.a, b);
    SortedDistinct(size, a + b);
  }

  /** Distinct parts of a sequence. */
  lemma Elsewhere(b: seq<Addr>, l: seq<Addr>, r: seq<Addr>, f: seq<Addr>)
    requires Distinct(b + (l + r) + f)
    ensures Distinct(r) && forall a :: a in b + f + l ==> a !in r
  {
    DistinctParts(b + (l + r), f);
    DistinctParts(b, l + r);
    DistinctParts(l, r);
    assert forall x :: x in r ==> x in l + r;
    assert forall x :: x in l + r ==> x in b + (l + r);
  }

  lemma OutsideFrame(l: Links, r: Links, l': Links, r': Links, top: Addr, c: Ctx, p: Addr, t: Tree, outside: seq<Addr>)
    requires CtxShape(l, r, top, c) && Shape(l, r, p, t)
    requires outside == Before(c) + After(c) + InOrder(t) && Same(l, r, l', r', outside)
    ensures CtxShape(l', r', top, c) && Shape(l', r', p, t)
  {
    assert forall x :: x in Before(c) || x in After(c) || x in InOrder(t) ==> x in outside;
    CtxFrame(l, r, l', r', top, c);
    ShapeFrame(l, r, l', r', p, t);
  }

  lemma AssignKeeps(l: Links, r: Links, top: Addr, c: Ctx, q: Addr, sub: Tree)
    requires CtxShape(l, r, top, c) && Shape(l, r, q, sub) && Distinct(Before(c) + InOrder(sub) + After(c))
    ensures var l', r' := if c.InLeft? then l[c.a := q] else l, if c.InRight? then r[c.a := q] else r;
            Shape(l', r', FillTop(top, c, q), Plug(c, sub))
  {
    var l', r' := if c.InLeft? then l[c.a := q] else l, if c.InRight? then r[c.a := q] else r;
    DistinctAround(c, sub);
    FillHole(l, r, top, c, q);
    ShapeFrame(l, r, l', r', q, sub);
    PlugShape(l', r', FillTop(top, c, q), c, sub);
  }

  lemma DistinctAround(c: Ctx, sub: Tree)
    requires Distinct(Before(c) + InOrder(sub) + After(c))
    ensures Distinct(Before(c) + After(c))
    ensures !c.Top? ==> c.a !in InOrder(sub)
  {
    var a, b, d := Before(c), InOrder(sub), After(c);
    DistinctParts(a + b, d);
    DistinctParts(a, b);
    assert forall x :: x in a || x in b ==> x in a + b;
    forall i, j | 0 <= i < j < |a + d| ensures (a + d)[i] != (a + d)[j] {
      assert (a + d)[i] == (a + b + d)[if i < |a| then i else i + |b|];
      assert (a + d)[j] == (a + b + d)[if j < |a| then j else j + |b|];
    }
    if c.InLeft? {
      assert c.a in [c.a] + InOrder(c.right) && c.a in After(c);
    } else if c.InRight? {
      assert c.a in InOrder(c.left) + [c.a] && c.a in Before(c);
    }
  }

  /** The least block of `t` takes the tree at `p` as its left subtree. */
  lemma JoinKeeps(l: Links, r: Links, top: Addr, c: Ctx, p: Addr, tl: Tree, q: Addr, t: Tree)
    requires CtxShape(l, r, top, c) && Shape(l, r, p, tl) && Shape(l, r, q, t) && t.Node? && t.left.Leaf?
    requires Distinct(Before(c) + (InOrder(tl) + InOrder(t)) + After(c))
    ensures var l' := l[q := p]; var t' := Node(tl, q, t.right);
            CtxShape(l', r, top, c) && Shape(l', r, q, t') && InOrder(t') == InOrder(tl) + InOrder(t)
  {
    Elsewhere(Before(c), InOrder(tl), InOrder(t), After(c));
    var l' := l[q := p];
    assert q in InOrder(t);
    NodeParts(t);
    OutsideFrame(l, r, l', r, top, c, p, tl, Before(c) + After(c) + InOrder(tl));
    ShapeFrame(l, r, l', r, r[q], t.right);
    assert InOrder(tl) + [q] + InOrder(t.right) == InOrder(tl) + ([] + [q] + InOrder(t.right));
  }

  lemma AddKeeps(size: Sizes, l: Links, r: Links, top: Addr, c: Ctx, n: Addr)
    requires CtxShape(l, r, top, c) && Sorted(size, InOrder(Plug(c, Leaf)))
    requires n != NULL && n !in InOrder(Plug(c, Leaf)) && n in size
    requires AllBelow(size, Before(c), size[n]) && AllAbove(size, After(c), size[n])
    ensures var l', r' := l[n := NULL], r[n := NULL]; var t := Node(Leaf, n, Leaf);
            && CtxShape(l', r', top, c) && Shape(l', r', n, t) && InOrder(t) == [n]
            && Sorted(size, Before(c) + [n] + After(c)) && Distinct(Before(c) + InOrder(t) + After(c))
            && InOrder(Plug(c, t)) == Before(c) + [n] + After(c)
  {
    var l', r', t := l[n := NULL], r[n := NULL], Node(Leaf, n, Leaf);
    PlugInOrder(c, Leaf);
    PlugInOrder(c, t);
    assert Before(c) + [] + After(c) == Before(c) + After(c);
    assert [] + [n] + [] == [n];
    SortedPrefix(size, Before(c), After(c));
    SortedJoin(size, Before(c), n, After(c));
    SortedDistinct(size, Before(c) + [n] + After(c));
    CtxFrame(l, r, l', r', top, c);
  }

  lemma ReplaceOrder(size: Sizes, c: Ctx, sub: Tree, n: Addr)
    requires sub.Node? && Sorted(size, InOrder(Plug(c, sub)))
    requires n in size && sub.a in size && size[n] == size[sub.a]
    ensures var s := (Before(c) + InOrder(sub.left)) + [n] + (InOrder(sub.right) + After(c));
            Sorted(size, s) && Distinct(s) && InOrder(Plug(c, Node(sub.left, n, sub.right))) == s
            && s == Before(c) + InOrder(Node(sub.left, n, sub.right)) + After(c)
  {
    PlugInOrder(c, sub);
    PlugInOrder(c, Node(sub.left, n, sub.right));
    FiveParts(Before(c), InOrder(sub.left), sub.a, InOrder(sub.right), After(c));
    FiveParts(Before(c), InOrder(sub.left), n, InOrder(sub.right), After(c));
    SortedParts(size, Before(c) + InOrder(sub.left), sub.a, InOrder(sub.right) + After(c));
    SortedJoin(size, Before(c) + InOrder(sub.left), n, InOrder(sub.right) + After(c));
    SortedDistinct(size, (Before(c) + InOrder(sub.left)) + [n] + (InOrder(sub.right) + After(c)));
  }

  lemma ReplaceKeeps(l: Links, r: Links, top: Addr, c: Ctx, b: Addr, sub: Tree, n: Addr)
    requires CtxShape(l, r, top, c) && Shape(l, r, b, sub) && sub.Node?
    requires n != NULL && n !in Before(c) && n !in After(c) && n !in InOrder(sub)
    ensures b in l && b in r
    ensures var l', r' := l[n := l[b]], r[n := r[b]];
            CtxShape(l', r', top, c) && Shape(l', r', n, Node(sub.left, n, sub.right))
  {
    var l', r' := l[n := l[b]], r[n := r[b]];
    CtxFrame(l, r, l', r', top, c);
    assert forall x :: x in InOrder(sub.left) || x in InOrder(sub.right) ==> x in InOrder(sub);
    ShapeFrame(l, r, l', r', l[b], sub.left);
    ShapeFrame(l, r, l', r', r[b], sub.right);
  }

  /** The headers of the blocks of the heap. */
  class Headers {
    var size: Sizes
    var color: map<Addr, Color>
  }

  class LargeTree {
    const mem: Headers
    var left: Links
    var right: Links
    var root: Addr
    ghost var tree: Tree

    ghost function Order(): seq<Addr>
      reads `tree
    {
      InOrder(tree)
    }

    ghost predicate TreeOk()
      reads `left, `right, `root, `tree, mem`size
    {
      Shape(left, right, root, tree) && Sorted(mem.size, Order()) && AllAbove(mem.size, Order(), BF_NUM_SMALL)
    }

    /** `c` leads to the subtree `sub` of the tree. */
    ghost predicate At(c: Ctx, sub: Tree)
      reads `left, `right, `root, `tree
    {
      && CtxShape(left, right, root, c) && Shape(left, right, AtHole(left, right, root, c), sub)
      && Plug(c, sub) == tree
    }

    constructor (mem: Headers)
      ensures TreeOk() && Order() == [] && this.mem == mem
    {
      this.mem, left, right, root, tree := mem, map[], map[], NULL, Leaf;
    }

    /** *p */
    function Deref(p: Loc): Addr
      reads `left, `right, `root
      requires (p.AtLeft? ==> p.a in left) && (p.AtRight? ==> p.a in right)
    {
      match p
      case AtTop => root
      case AtLeft(a) => left[a]
      case AtRight(a) => right[a]
    }

    /** Reading the location of a subtree gives its root. */
    lemma DerefAt(c: Ctx, sub: Tree)
      requires At(c, sub)
      ensures (c.InLeft? ==> c.a in left) && (c.InRight? ==> c.a in right)
      ensures Deref(LocOf(c)) == if sub.Node? then sub.a else NULL
      ensures sub.Node? ==> sub.a != NULL
    {
    }

    /** bf_search: the location of the node of size `wosz`, or where it should have been. */
    method Search(wosz: nat) returns (p: Loc, ghost c: Ctx, ghost sub: Tree)
      requires TreeOk()
      ensures At(c, sub) && p == LocOf(c)
      ensures AllBelow(mem.size, Before(c), wosz) && AllAbove(mem.size, After(c), wosz)
      ensures sub.Node? ==> sub.a in Order() && sub.a in mem.size && mem.size[sub.a] == wosz
    {
      p, c, sub := AtTop, Top, tree;
      var cur := root;
      while cur != NULL
        invariant At(c, sub) && p == LocOf(c) && cur == AtHole(left, right, root, c)
        invariant Sorted(mem.size, InOrder(sub))
        invariant AllBelow(mem.size, Before(c), wosz) && AllAbove(mem.size, After(c), wosz)
        decreases sub
      {
        NodeBounds(mem.size, sub);
        var cursz := mem.size[cur];
        if cursz == wosz {
          break;
        } else if cursz > wosz {
          p, c, sub := AtLeft(cur), InLeft(c, cur, sub.right), sub.left;
          cur := left[cur];
        } else {
          p, c, sub := AtRight(cur), InRight(c, sub.left, cur), sub.right;
          cur := right[cur];
        }
      }
      if sub.Node? { InPlug(c, sub); }
    }

    /** bf_search_best: the least node that is large enough, and a bound on the sizes below it. */
    method SearchBest(wosz: nat) returns (found: bool, p: Loc, nextLower: nat, ghost c: Ctx, ghost sub: Tree)
      requires TreeOk()
      ensures !found ==> AllBelow(mem.size, Order(), wosz)
      ensures found ==>
                && At(c, sub) && p == LocOf(c) && sub.Node? && sub.a in mem.size && mem.size[sub.a] >= wosz
                && AllBelow(mem.size, Before(c) + InOrder(sub.left), wosz)
                && AllBelow(mem.size, Before(c) + InOrder(sub.left), nextLower + 1)
                && AllAbove(mem.size, InOrder(sub.right) + After(c), mem.size[sub.a])
                && if mem.size[sub.a] == wosz then nextLower == wosz
                   else nextLower == BF_NUM_SMALL || BF_NUM_SMALL < nextLower < wosz
    {
      p, c, sub, found, nextLower := AtTop, Top, tree, false, BF_NUM_SMALL;
      var q, cur := AtTop, root;
      ghost var d, t := Top, tree;
      while cur != NULL
        invariant At(d, t) && q == LocOf(d) && cur == AtHole(left, right, root, d)
        invariant AllBelow(mem.size, Before(d), wosz) && AllBelow(mem.size, Before(d), nextLower + 1)
        invariant nextLower == BF_NUM_SMALL || BF_NUM_SMALL < nextLower < wosz
        invariant !found ==> After(d) == []
        invariant found ==> At(c, sub) && p == LocOf(c) && Best(mem.size, wosz, c, sub, d, t)
        decreases t
      {
        AtNode(mem.size, d, t);
        InPlug(d, t);
        var cursz := mem.size[cur];
        if cursz == wosz {
          found, p, nextLower, c, sub := true, q, wosz, d, t;
          return;
        } else if cursz > wosz {
          found, p, c, sub := true, q, d, t;
          q, d, t := AtLeft(cur), InLeft(d, cur, t.right), t.left;
          cur := left[cur];
        } else {
          nextLower := cursz;
          q, d, t := AtRight(cur), InRight(d, t.left, cur), t.right;
          cur := right[cur];
        }
      }
      PlugInOrder(d, t);
    }

    /** The local variables of bf_splay: the middle subtree at `x`, and the two outer trees with the
        locations of their holes; sizes to the left are too small, sizes to the right too large. */
    ghost predicate InSplay(s: Splaying, order: seq<Addr>, wosz: nat)
      reads `left, `right, mem`size
    {
      && SplayOk(left, right, s) && SplayOrder(s) == order && Sorted(mem.size, order)
      && AllBelow(mem.size, Before(s.lc), wosz) && AllAbove(mem.size, After(s.rc), wosz)
    }

    /** Rotate right: the left child of `x` becomes the root of the middle subtree. */
    method RotateRight(x: Addr, ghost s: Splaying, ghost outside: seq<Addr>) returns (y: Addr, ghost s': Splaying)
      requires SplayOk(left, right, s) && s.t.left.Node? && s.x == x
      requires forall a :: a in outside ==> a !in SplayOrder(s)
      modifies `left, `right
      ensures y == old(left)[x] && s' == s.(x := y, t := RotatedRight(s.t))
      ensures SplayOk(left, right, s') && SplayOrder(s') == SplayOrder(s) && Size(s'.t) == Size(s.t)
      ensures Same(old(left), old(right), left, right, outside)
    {
      Children(left, right, s);
      InSplayOrder(s);
      RotateRightKeeps(left, right, s);
      y := left[x];
      s' := s.(x := y, t := RotatedRight(s.t));
      left, right := left[x := right[y]], right[y := x];
    }

    method RotateLeft(x: Addr, ghost s: Splaying) returns (y: Addr, ghost s': Splaying)
      requires SplayOk(left, right, s) && s.t.right.Node? && s.x == x
      modifies `left, `right
      ensures y == old(right)[x] && s' == s.(x := y, t := RotatedLeft(s.t))
      ensures SplayOk(left, right, s') && SplayOrder(s') == SplayOrder(s) && Size(s'.t) == Size(s.t)
    {
      Children(left, right, s);
      RotateLeftKeeps(left, right, s);
      y := right[x];
      s' := s.(x := y, t := RotatedLeft(s.t));
      left, right := left[y := x], right[x := left[y]];
    }

    /** Link right: `x` fills the hole of the right tree; its left child is visited next. */
    method LinkRight(x: Addr, rightTop0: Addr, rightBottom0: Loc, ghost s: Splaying, ghost outside: seq<Addr>)
      returns (y: Addr, rightTop: Addr, rightBottom: Loc, ghost s': Splaying)
      requires SplayOk(left, right, s) && s.t.left.Node?
      requires s.x == x && s.rightTop == rightTop0 && rightBottom0 == LocOf(s.rc)
      requires forall a :: a in outside ==> a !in SplayOrder(s)
      modifies `left
      ensures y == old(left)[x] && s' == LinkedRight(old(left), s) && s'.rightTop == rightTop
              && rightBottom == LocOf(s'.rc)
      ensures SplayOk(left, right, s') && SplayOrder(s') == SplayOrder(s) && Size(s'.t) < Size(s.t)
      ensures Same(old(left), right, left, right, outside)
    {
      Children(left, right, s);
      InSplayOrder(s);
      LinkRightKeeps(left, right, s);
      y, rightTop, s' := left[x], rightTop0, LinkedRight(left, s);
      if rightBottom0 == AtTop { rightTop := x; } else { left := left[rightBottom0.a := x]; }
      rightBottom := AtLeft(x);
    }

    method LinkLeft(x: Addr, leftTop0: Addr, leftBottom0: Loc, ghost s: Splaying)
      returns (y: Addr, leftTop: Addr, leftBottom: Loc, ghost s': Splaying)
      requires SplayOk(left, right, s) && s.t.right.Node?
      requires s.x == x && s.leftTop == leftTop0 && leftBottom0 == LocOf(s.lc)
      modifies `right
      ensures y == old(right)[x] && s' == LinkedLeft(old(right), s) && s'.leftTop == leftTop
              && leftBottom == LocOf(s'.lc)
      ensures SplayOk(left, right, s') && SplayOrder(s') == SplayOrder(s) && Size(s'.t) < Size(s.t)
    {
      Children(left, right, s);
      LinkLeftKeeps(left, right, s);
      y, leftTop, s' := right[x], leftTop0, LinkedLeft(right, s);
      if leftBottom0 == AtTop { leftTop := x; } else { right := right[leftBottom0.a := x]; }
      leftBottom := AtRight(x);
    }

    /** The branch of the loop for `xsz > wosz`: zig, with a rotation in the zig-zig case. */
    method Zig(x0: Addr, rightTop0: Addr, rightBottom0: Loc, wosz: nat, ghost s0: Splaying, ghost order: seq<Addr>)
      returns (x: Addr, rightTop: Addr, rightBottom: Loc, more: bool, ghost s: Splaying)
      requires InSplay(s0, order, wosz) && s0.x == x0 && s0.rightTop == rightTop0 && rightBottom0 == LocOf(s0.rc)
      requires x0 in mem.size && mem.size[x0] > wosz
      modifies `left, `right
      ensures InSplay(s, order, wosz) && s.x == x && s.rightTop == rightTop && rightBottom == LocOf(s.rc)
      ensures s.leftTop == s0.leftTop && s.lc == s0.lc
      ensures if more then Size(s.t) < Size(s0.t) else Nearest(mem.size, s.t, wosz)
    {
      x, rightTop, rightBottom, more, s := x0, rightTop0, rightBottom0, false, s0;
      Children(left, right, s);
      LinkBounds(mem.size, s, wosz);
      var y := left[x];
      if y == NULL { return; }
      if mem.size[y] > wosz {
        x, s := RotateRight(x, s, []);
        Children(left, right, s);
        LinkBounds(mem.size, s, wosz);
        y := left[x];
        if y == NULL { return; }
      }
      x, rightTop, rightBottom, s := LinkRight(x, rightTop, rightBottom, s, []);
      more := true;
    }

    /** The branch of the loop for `xsz < wosz`. */
    method Zag(x0: Addr, leftTop0: Addr, leftBottom0: Loc, wosz: nat, ghost s0: Splaying, ghost order: seq<Addr>)
      returns (x: Addr, leftTop: Addr, leftBottom: Loc, more: bool, ghost s: Splaying)
      requires InSplay(s0, order, wosz) && s0.x == x0 && s0.leftTop == leftTop0 && leftBottom0 == LocOf(s0.lc)
      requires x0 in mem.size && mem.size[x0] < wosz
      modifies `left, `right
      ensures InSplay(s, order, wosz) && s.x == x && s.leftTop == leftTop && leftBottom == LocOf(s.lc)
      ensures s.rightTop == s0.rightTop && s.rc == s0.rc
      ensures if more then Size(s.t) < Size(s0.t) else Nearest(mem.size, s.t, wosz)
    {
      x, leftTop, leftBottom, more, s := x0, leftTop0, leftBottom0, false, s0;
      Children(left, right, s);
      LinkBounds(mem.size, s, wosz);
      var y := right[x];
      if y == NULL { return; }
      if mem.size[y] < wosz {
        x, s := RotateLeft(x, s);
        Children(left, right, s);
        LinkBounds(mem.size, s, wosz);
        y := right[x];
        if y == NULL { return; }
      }
      x, leftTop, leftBottom, s := LinkLeft(x, leftTop, leftBottom, s);
      more := true;
    }

    /** The end of bf_splay: the two outer trees become the children of `x`. */
    method Reassemble(x: Addr, leftTop0: Addr, leftBottom: Loc, rightTop0: Addr, rightBottom: Loc, ghost s: Splaying)
      requires SplayOk(left, right, s) && s.x == x
      requires s.leftTop == leftTop0 && leftBottom == LocOf(s.lc) && s.rightTop == rightTop0
               && rightBottom == LocOf(s.rc)
      modifies `left, `right
      ensures Shape(left, right, x, Reassembled(s))
    {
      var leftTop, rightTop := leftTop0, rightTop0;
      FillLeftTree(left, right, s);
      if leftBottom == AtTop { leftTop := left[x]; } else { right := right[leftBottom.a := left[x]]; }
      ghost var s1 := s.(leftTop := leftTop);
      FillRightTree(left, right, s1);
      if rightBottom == AtTop { rightTop := right[x]; } else { left := left[rightBottom.a := right[x]]; }
      TakeChildren(left, right, s1.(rightTop := rightTop));
      left, right := left[x := leftTop], right[x := rightTop];
    }

    /** The end of bf_splay_least: `x` has no left child, the right tree becomes its right child. */
    method ReassembleRight(x0: Addr, rightTop0: Addr, rightBottom: Loc, ghost s: Splaying,
        ghost outside: seq<Addr>) returns (x: Addr)
      requires SplayOk(left, right, s) && s.x == x0 && s.lc == Top && s.leftTop == NULL && s.t.left.Leaf?
      requires s.rightTop == rightTop0 && rightBottom == LocOf(s.rc)
      requires forall a :: a in outside ==> a !in SplayOrder(s)
      modifies `left, `right
      ensures Shape(left, right, x, Reassembled(s)) && InOrder(Reassembled(s)) == SplayOrder(s)
      ensures Reassembled(s).left.Leaf?
      ensures Same(old(left), old(right), left, right, outside)
    {
      x := x0;
      var rightTop := rightTop0;
      ReassembledOrder(s);
      Children(left, right, s);
      InSplayOrder(s);
      FillRightTree(left, right, s);
      if rightBottom == AtTop { rightTop := right[x]; } else { left := left[rightBottom.a := right[x]]; }
      TakeChildren(left, right, s.(rightTop := rightTop));
      assert left[x := NULL] == left;
      right := right[x := rightTop];
    }

    /** bf_splay: same blocks in the same order; the new root is the node of size `wosz` if there is
        one, otherwise the least larger or the greatest smaller one. */
    method Splay(wosz: nat)
      requires TreeOk()
      modifies `left, `right, `root, `tree
      ensures TreeOk() && Order() == old(Order())
      ensures tree.Node? <==> old(tree).Node?
      ensures tree.Node? ==> SplayedAt(mem.size, tree, wosz)
    {
      if root == NULL { return; }
      var leftTop, rightTop, leftBottom, rightBottom, x := NULL, NULL, AtTop, AtTop, root;
      ghost var s := Splaying(NULL, Top, root, tree, NULL, Top);
      ghost var order := Order();
      SortedDistinct(mem.size, order);
      assert [] + order + [] == order;
      var more := true;
      while more
        invariant InSplay(s, order, wosz) && s.x == x
        invariant s.leftTop == leftTop && s.rightTop == rightTop
        invariant leftBottom == LocOf(s.lc) && rightBottom == LocOf(s.rc)
        invariant !more ==> Nearest(mem.size, s.t, wosz)
        decreases more, Size(s.t)
      {
        Children(left, right, s);
        LinkBounds(mem.size, s, wosz);
        var xsz := mem.size[x];
        if xsz == wosz {
          more := false;
        } else if xsz > wosz {
          x, rightTop, rightBottom, more, s := Zig(x, rightTop, rightBottom, wosz, s, order);
        } else {
          x, leftTop, leftBottom, more, s := Zag(x, leftTop, leftBottom, wosz, s, order);
        }
      }
      SplayEnds(mem.size, s, wosz);
      Reassemble(x, leftTop, leftBottom, rightTop, rightBottom, s);
      root, tree := x, Reassembled(s);
    }

    /** bf_splay_least on the subtree at `p`, in a variable: the new root is its least block and has
        no left child. */
    method SplayLeast(p: Addr, ghost t: Tree, ghost outside: seq<Addr>) returns (x: Addr, ghost t': Tree)
      requires t.Node? && Shape(left, right, p, t) && Distinct(InOrder(t))
      requires forall a :: a in outside ==> a !in InOrder(t)
      modifies `left, `right
      ensures Shape(left, right, x, t') && t'.Node? && t'.left.Leaf? && InOrder(t') == InOrder(t)
      ensures Same(old(left), old(right), left, right, outside)
    {
      x := p;
      var rightTop, rightBottom := NULL, AtTop;
      ghost var s := Splaying(NULL, Top, p, t, NULL, Top);
      assert [] + InOrder(t) + [] == InOrder(t);
      while true
        invariant SplayOk(left, right, s) && SplayOrder(s) == InOrder(t) && s.lc == Top && s.leftTop == NULL
        invariant s.x == x && s.rightTop == rightTop && rightBottom == LocOf(s.rc)
        invariant Same(old(left), old(right), left, right, outside)
        decreases Size(s.t)
      {
        Children(left, right, s);
        if left[x] == NULL { break; }
        x, s := RotateRight(x, s, outside);
        Children(left, right, s);
        if left[x] == NULL { break; }
        x, rightTop, rightBottom, s := LinkRight(x, rightTop, rightBottom, s, outside);
      }
      t' := Reassembled(s);
      x := ReassembleRight(x, rightTop, rightBottom, s, outside);
    }

    /** *p = q, where `q` is the root of a subtree made of blocks that are not around the hole. */
    method Assign(p: Loc, q: Addr, ghost c: Ctx, ghost sub: Tree)
      requires CtxShape(left, right, root, c) && Shape(left, right, q, sub) && p == LocOf(c)
      requires Distinct(Before(c) + InOrder(sub) + After(c))
      modifies `left, `right, `root, `tree
      ensures Shape(left, right, root, tree) && tree == Plug(c, sub)
    {
      AssignKeeps(left, right, root, c, q, sub);
      if p.AtTop? {
        root := q;
      } else if p.AtLeft? {
        left := left[p.a := q];
      } else {
        right := right[p.a := q];
      }
      tree := Plug(c, sub);
    }

    /** bf_remove_node: exactly the node at `p` leaves the tree. */
    method RemoveAt(p: Loc, ghost c: Ctx, ghost sub: Tree)
      requires TreeOk() && At(c, sub) && p == LocOf(c)
      modifies `left, `right, `root, `tree
      ensures TreeOk()
      ensures Order() == Before(c) + (if sub.Leaf? then [] else InOrder(sub.left) + InOrder(sub.right)) + After(c)
    {
      PlugInOrder(c, sub);
      var x := Deref(p);
      if x == NULL { return; }
      RemovalBounds(mem.size, c, sub);
      ghost var t;
      x, t := RemoveRoot(x, c, sub);
      Assign(p, x, c, t);
      PlugInOrder(c, t);
    }

    /** What takes the place of the node `x`: one of its children, or the two joined. */
    method RemoveRoot(x: Addr, ghost c: Ctx, ghost sub: Tree) returns (q: Addr, ghost t: Tree)
      requires sub.Node? && CtxShape(left, right, root, c) && Shape(left, right, x, sub)
      requires Distinct(Before(c) + (InOrder(sub.left) + InOrder(sub.right)) + After(c))
      modifies `left, `right
      ensures CtxShape(left, right, root, c) && Shape(left, right, q, t)
      ensures InOrder(t) == InOrder(sub.left) + InOrder(sub.right)
    {
      var l, r := left[x], right[x];
      if l == NULL {
        q, t := r, sub.right;
        assert [] + InOrder(t) == InOrder(t);
      } else if r == NULL {
        q, t := l, sub.left;
        assert InOrder(t) + [] == InOrder(t);
      } else {
        Elsewhere(Before(c), InOrder(sub.left), InOrder(sub.right), After(c));
        ghost var l0, r0, outside := left, right, Before(c) + After(c) + InOrder(sub.left);
        q, t := SplayLeast(r, sub.right, outside);
        OutsideFrame(l0, r0, left, right, root, c, l, sub.left, outside);
        JoinKeeps(left, right, root, c, l, sub.left, q, t);
        left := left[q := l];
        t := Node(sub.left, q, t.right);
      }
    }

    /** A new node without children. */
    method AddAt(p: Loc, n: Addr, ghost c: Ctx)
      requires TreeOk() && At(c, Leaf) && p == LocOf(c)
      requires n != NULL && n !in Order() && n in mem.size && mem.size[n] > BF_NUM_SMALL
      requires AllBelow(mem.size, Before(c), mem.size[n]) && AllAbove(mem.size, After(c), mem.size[n])
      modifies `left, `right, `root, `tree
      ensures TreeOk() && Order() == Before(c) + [n] + After(c)
    {
      AddKeeps(mem.size, left, right, root, c, n);
      PlugInOrder(c, Leaf);
      left, right := left[n := NULL], right[n := NULL];
      Assign(p, n, c, Node(Leaf, n, Leaf));
    }

    /** Block `n` takes the place of the node `b` of the same size. */
    method ReplaceAt(p: Loc, b: Addr, n: Addr, ghost c: Ctx, ghost sub: Tree)
      requires TreeOk() && At(c, sub) && sub.Node? && sub.a == b && p == LocOf(c)
      requires n != NULL && n !in Order() && n in mem.size && b in mem.size && mem.size[n] == mem.size[b]
      modifies `left, `right, `root, `tree
      ensures TreeOk() && Order() == (Before(c) + InOrder(sub.left)) + [n] + (InOrder(sub.right) + After(c))
      ensures InOrder(old(tree)) == (Before(c) + InOrder(sub.left)) + [b] + (InOrder(sub.right) + After(c))
    {
      PlugInOrder(c, sub);
      FiveParts(Before(c), InOrder(sub.left), b, InOrder(sub.right), After(c));
      ReplaceOrder(mem.size, c, sub, n);
      ReplaceKeeps(left, right, root, c, b, sub, n);
      left, right := left[n := left[b]], right[n := right[b]];
      Assign(p, n, c, Node(sub.left, n, sub.right));
    }
  }
}
