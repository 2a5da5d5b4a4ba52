// Binary trees of blocks linked by left and right pointers, trees with a hole,
// and the steps of top-down splaying on them (freelist.c).

module Trees {
  import opened Basics

  type Addr = nat

  const NULL: Addr := 0

  /** One pointer field of every block. */
  type Links = map<Addr, Addr>

  datatype Tree = Leaf | Node(left: Tree, a: Addr, right: Tree)

  ghost function InOrder(t: Tree): seq<Addr> {
    match t
    case Leaf => []
    case Node(l, a, r) => InOrder(l) + [a] + InOrder(r)
  }

  ghost predicate IsNode(l: Links, r: Links, a: Addr) {
    a != NULL && a in l && a in r
  }

  /** Pointer `p` is the root of tree `t`. */
  ghost predicate Shape(l: Links, r: Links, p: Addr, t: Tree)
    decreases t
  {
    match t
    case Leaf => p == NULL
    case Node(tl, a, tr) => p == a && IsNode(l, r, a) && Shape(l, r, l[a], tl) && Shape(l, r, r[a], tr)
  }

  // ---------------------------------------------------------------- trees with a hole

  /** A path down to a pointer field: the variable holding the root, or a field of block `a`. */
  datatype Ctx =
    | Top
    | InLeft(up: Ctx, a: Addr, right: Tree)
    | InRight(up: Ctx, left: Tree, a: Addr)

  /** A pointer to a pointer. */
  datatype Loc = AtTop | AtLeft(a: Addr) | AtRight(a: Addr)

  function LocOf(c: Ctx): Loc {
    match c
    case Top => AtTop
    case InLeft(_, a, _) => AtLeft(a)
    case InRight(_, _, a) => AtRight(a)
  }

  ghost function Plug(c: Ctx, t: Tree): Tree {
    match c
    case Top => t
    case InLeft(up, a, r) => Plug(up, Node(t, a, r))
    case InRight(up, l, a) => Plug(up, Node(l, a, t))
  }

  /** The blocks in order before and after the hole. */
  ghost function Before(c: Ctx): seq<Addr> {
    match c
    case Top => []
    case InLeft(up, _, _) => Before(up)
    case InRight(up, l, a) => Before(up) + (InOrder(l) + [a])
  }

  ghost function After(c: Ctx): seq<Addr> {
    match c
    case Top => []
    case InLeft(up, a, r) => ([a] + InOrder(r)) + After(up)
    case InRight(up, _, _) => After(up)
  }

  /** The pointer stored at the hole when the root is in a variable holding `top`. */
  ghost function AtHole(l: Links, r: Links, top: Addr, c: Ctx): Addr {
    match c
    case Top => top
    case InLeft(_, a, _) => if a in l then l[a] else NULL
    case InRight(_, _, a) => if a in r then r[a] else NULL
  }

  ghost predicate CtxShape(l: Links, r: Links, top: Addr, c: Ctx) {
    match c
    case Top => true
    case InLeft(up, a, tr) => IsNode(l, r, a) && Shape(l, r, r[a], tr) && AtHole(l, r, top, up) == a && CtxShape(l, r, top, up)
    case InRight(up, tl, a) => IsNode(l, r, a) && Shape(l, r, l[a], tl) && AtHole(l, r, top, up) == a && CtxShape(l, r, top, up)
  }

  lemma {:induction false} PlugShape(l: Links, r: Links, top: Addr, c: Ctx, t: Tree)
    requires CtxShape(l, r, top, c) && Shape(l, r, AtHole(l, r, top, c), t)
    ensures Shape(l, r, top, Plug(c, t))
  {
    match c
    case Top =>
    case InLeft(up, a, tr) => PlugShape(l, r, top, up, Node(t, a, tr));
    case InRight(up, tl, a) => PlugShape(l, r, top, up, Node(tl, a, t));
  }

  lemma {:induction false} PlugInOrder(c: Ctx, t: Tree)
    ensures InOrder(Plug(c, t)) == Before(c) + InOrder(t) + After(c)
  {
    match c
    case Top =>
    case InLeft(up, a, r) => PlugInOrder(up, Node(t, a, r));
    case InRight(up, l, a) => PlugInOrder(up, Node(l, a, t));
  }

  // ---------------------------------------------------------------- frames

  /** The fields of the blocks in `s` have the same contents in both memories. */
  ghost predicate Same(l: Links, r: Links, l': Links, r': Links, s: seq<Addr>) {
    forall a :: a in s && IsNode(l, r, a) ==> IsNode(l', r', a) && l'[a] == l[a] && r'[a] == r[a]
  }

  lemma {:induction false} ShapeFrame(l: Links, r: Links, l': Links, r': Links, p: Addr, t: Tree)
    requires Shape(l, r, p, t) && Same(l, r, l', r', InOrder(t))
    ensures Shape(l', r', p, t)
    decreases t
  {
    if t.Node? {
      assert t.a in InOrder(t);
      ShapeFrame(l, r, l', r', l[t.a], t.left);
      ShapeFrame(l, r, l', r', r[t.a], t.right);
    }
  }

  /** Writing the hole of a tree, and blocks outside it, leaves its shape; the hole holds the new pointer. */
  lemma {:induction false} CtxFrame(l: Links, r: Links, l': Links, r': Links, top: Addr, c: Ctx)
    requires CtxShape(l, r, top, c) && Same(l, r, l', r', Before(c)) && Same(l, r, l', r', After(c))
    ensures CtxShape(l', r', top, c) && AtHole(l', r', top, c) == AtHole(l, r, top, c)
  {
    match c
    case Top =>
    case InLeft(up, a, tr) =>
      assert a in After(c);
      assert forall x :: x in InOrder(tr) || x in After(up) ==> x in After(c);
      ShapeFrame(l, r, l', r', r[a], tr);
      CtxFrame(l, r, l', r', top, up);
    case InRight(up, tl, a) =>
      assert a in Before(c);
      assert forall x :: x in InOrder(tl) || x in Before(up) ==> x in Before(c);
      ShapeFrame(l, r, l', r', l[a], tl);
      CtxFrame(l, r, l', r', top, up);
  }

  lemma DistinctParts(a: seq<Addr>, b: seq<Addr>)
    requires Distinct(a + b)
    ensures Distinct(a) && Distinct(b) && forall x :: x in a ==> x !in b
  {
    assert a == (a + b)[..|a|] && b == (a + b)[|a|..];
    forall x | x in a ensures x !in b {
      var i :| 0 <= i < |a| && a[i] == x;
      assert forall j :: 0 <= j < |b| ==> (a + b)[|a| + j] == b[j] && (a + b)[i] == x;
    }
  }

  // ---------------------------------------------------------------- splaying

  ghost predicate OnlyRight(c: Ctx) {
    c.Top? || (c.InRight? && OnlyRight(c.up))
  }

  ghost predicate OnlyLeft(c: Ctx) {
    c.Top? || (c.InLeft? && OnlyLeft(c.up))
  }

  lemma {:induction c} OneSided(c: Ctx)
    ensures OnlyRight(c) ==> After(c) == []
    ensures OnlyLeft(c) ==> Before(c) == []
  {
  }

  /** The loops of bf_splay: a left tree with its hole at the right end, the subtree at `x`, and a
      right tree with its hole at the left end. */
  datatype Splaying = Splaying(leftTop: Addr, lc: Ctx, x: Addr, t: Tree, rightTop: Addr, rc: Ctx)

  ghost function SplayOrder(s: Splaying): seq<Addr> {
    Before(s.lc) + InOrder(s.t) + After(s.rc)
  }

  ghost predicate SplayOk(l: Links, r: Links, s: Splaying) {
    && s.t.Node? && OnlyRight(s.lc) && OnlyLeft(s.rc) && Distinct(SplayOrder(s))
    && CtxShape(l, r, s.leftTop, s.lc) && Shape(l, r, s.x, s.t) && CtxShape(l, r, s.rightTop, s.rc)
  }

  /** What the pointers of the middle subtree's root say about its children. */
  lemma Children(l: Links, r: Links, s: Splaying)
    requires SplayOk(l, r, s)
    ensures IsNode(l, r, s.x) && s.x == s.t.a
    ensures l[s.x] == NULL <==> s.t.left.Leaf?
    ensures s.t.left.Node? ==> l[s.x] == s.t.left.a && IsNode(l, r, l[s.x])
    ensures r[s.x] == NULL <==> s.t.right.Leaf?
    ensures s.t.right.Node? ==> r[s.x] == s.t.right.a && IsNode(l, r, r[s.x])
  {
    assert Shape(l, r, l[s.x], s.t.left) && Shape(l, r, r[s.x], s.t.right);
  }

  lemma DistinctThree(s: Splaying)
    requires Distinct(SplayOrder(s))
    ensures Distinct(InOrder(s.t))
    ensures forall x :: x in Before(s.lc) ==> x !in InOrder(s.t) && x !in After(s.rc)
    ensures forall x :: x in InOrder(s.t) ==> x !in After(s.rc)
  {
    DistinctParts(Before(s.lc) + InOrder(s.t), After(s.rc));
    DistinctParts(Before(s.lc), InOrder(s.t));
    assert forall x :: x in Before(s.lc) || x in InOrder(s.t) ==> x in Before(s.lc) + InOrder(s.t);
  }

  /** Changing only blocks of the middle subtree leaves the outer trees. */
  lemma OuterFrame(l: Links, r: Links, l': Links, r': Links, s: Splaying)
    requires SplayOk(l, r, s)
    requires Same(l, r, l', r', Before(s.lc)) && Same(l, r, l', r', After(s.rc))
    ensures CtxShape(l', r', s.leftTop, s.lc) && CtxShape(l', r', s.rightTop, s.rc)
  {
    OneSided(s.lc);
    OneSided(s.rc);
    CtxFrame(l, r, l', r', s.leftTop, s.lc);
    CtxFrame(l, r, l', r', s.rightTop, s.rc);
  }

  lemma NodeParts(t: Tree)
    requires t.Node? && Distinct(InOrder(t))
    ensures t.a !in InOrder(t.left) && t.a !in InOrder(t.right) && t.a in InOrder(t)
    ensures forall x :: x in InOrder(t.left) ==> x !in InOrder(t.right)
    ensures forall x :: x in InOrder(t.left) || x in InOrder(t.right) ==> x in InOrder(t)
    ensures Distinct(InOrder(t.left)) && Distinct(InOrder(t.right))
  {
    DistinctParts(InOrder(t.left) + [t.a], InOrder(t.right));
    DistinctParts(InOrder(t.left), [t.a]);
    assert t.a in InOrder(t.left) + [t.a];
    assert forall x :: x in InOrder(t.left) ==> x in InOrder(t.left) + [t.a];
  }

  ghost function RotatedRight(t: Tree): Tree
    requires t.Node? && t.left.Node?
  {
    Node(t.left.left, t.left.a, Node(t.left.right, t.a, t.right))
  }

  ghost function RotatedLeft(t: Tree): Tree
    requires t.Node? && t.right.Node?
  {
    Node(Node(t.left, t.a, t.right.left), t.right.a, t.right.right)
  }

  lemma RotateRightShape(l: Links, r: Links, x: Addr, t: Tree)
    requires t.Node? && t.left.Node? && Shape(l, r, x, t) && Distinct(InOrder(t))
    ensures IsNode(l, r, x) && IsNode(l, r, l[x]) && l[x] == t.left.a
    ensures var y := l[x]; Shape(l[x := r[y]], r[y := x], y, RotatedRight(t))
  {
    NodeParts(t);
    NodeParts(t.left);
    var y := l[x];
    var l', r' := l[x := r[y]], r[y := x];
    ShapeFrame(l, r, l', r', l[y], t.left.left);
    ShapeFrame(l, r, l', r', r[y], t.left.right);
    ShapeFrame(l, r, l', r', r[x], t.right);
  }

  lemma RotateLeftShape(l: Links, r: Links, x: Addr, t: Tree)
    requires t.Node? && t.right.Node? && Shape(l, r, x, t) && Distinct(InOrder(t))
    ensures IsNode(l, r, x) && IsNode(l, r, r[x]) && r[x] == t.right.a
    ensures var y := r[x]; Shape(l[y := x], r[x := l[y]], y, RotatedLeft(t))
  {
    NodeParts(t);
    NodeParts(t.right);
    var y := r[x];
    var l', r' := l[y := x], r[x := l[y]];
    ShapeFrame(l, r, l', r', l[x], t.left);
    ShapeFrame(l, r, l', r', l[y], t.right.left);
    ShapeFrame(l, r, l', r', r[y], t.right.right);
  }

  lemma Regroup(a: seq<Addr>, x: seq<Addr>, b: seq<Addr>, y: seq<Addr>, c: seq<Addr>)
    ensures (a + x + b) + y + c == a + x + (b + y + c)
  {
  }

  lemma RotationInOrder(t: Tree)
    requires t.Node?
    ensures t.left.Node? ==> InOrder(RotatedRight(t)) == InOrder(t)
    ensures t.right.Node? ==> InOrder(RotatedLeft(t)) == InOrder(t)
  {
    if t.left.Node? {
      Regroup(InOrder(t.left.left), [t.left.a], InOrder(t.left.right), [t.a], InOrder(t.right));
    }
    if t.right.Node? {
      Regroup(InOrder(t.left), [t.a], InOrder(t.right.left), [t.right.a], InOrder(t.right.right));
    }
  }

  /** Rotate right at `x`. */
  lemma RotateRightKeeps(l: Links, r: Links, s: Splaying)
    requires SplayOk(l, r, s) && s.t.left.Node?
    ensures IsNode(l, r, s.x) && IsNode(l, r, l[s.x])
    ensures var y := l[s.x]; var s' := s.(x := y, t := RotatedRight(s.t));
            SplayOk(l[s.x := r[y]], r[y := s.x], s') && SplayOrder(s') == SplayOrder(s)
  {
    DistinctThree(s);
    NodeParts(s.t);
    NodeParts(s.t.left);
    RotateRightShape(l, r, s.x, s.t);
    RotationInOrder(s.t);
    OuterFrame(l, r, l[s.x := r[l[s.x]]], r[l[s.x] := s.x], s);
  }

  lemma RotateLeftKeeps(l: Links, r: Links, s: Splaying)
    requires SplayOk(l, r, s) && s.t.right.Node?
    ensures IsNode(l, r, s.x) && IsNode(l, r, r[s.x])
    ensures var y := r[s.x]; var s' := s.(x := y, t := RotatedLeft(s.t));
            SplayOk(l[y := s.x], r[s.x := l[y]], s') && SplayOrder(s') == SplayOrder(s)
  {
    DistinctThree(s);
    NodeParts(s.t);
    NodeParts(s.t.right);
    RotateLeftShape(l, r, s.x, s.t);
    RotationInOrder(s.t);
    OuterFrame(l, r, l[r[s.x] := s.x], r[s.x := l[r[s.x]]], s);
  }

  // Linking writes the hole of an outer tree.

  ghost function FillTop(top: Addr, c: Ctx, q: Addr): Addr {
    if c.Top? then q else top
  }

  ghost function FillLinks(m: Links, c: Ctx, q: Addr): Links {
    match c
    case Top => m
    case InLeft(_, a, _) => m[a := q]
    case InRight(_, _, a) => m[a := q]
  }

  /** Filling the hole of a tree whose blocks are distinct from those in `s`. */
  lemma FillHole(l: Links, r: Links, top: Addr, c: Ctx, q: Addr)
    requires CtxShape(l, r, top, c) && Distinct(Before(c) + After(c))
    ensures var l', r' := if c.InLeft? then l[c.a := q] else l, if c.InRight? then r[c.a := q] else r;
            var top' := FillTop(top, c, q);
            CtxShape(l', r', top', c) && AtHole(l', r', top', c) == q
  {
    DistinctParts(Before(c), After(c));
    if c.InLeft? {
      DistinctParts([c.a] + InOrder(c.right), After(c.up));
      DistinctParts([c.a], InOrder(c.right));
      var l' := l[c.a := q];
      assert c.a in [c.a] && c.a in [c.a] + InOrder(c.right) && c.a in After(c);
      ShapeFrame(l, r, l', r, r[c.a], c.right);
      CtxFrame(l, r, l', r, top, c.up);
    } else if c.InRight? {
      DistinctParts(Before(c.up), InOrder(c.left) + [c.a]);
      DistinctParts(InOrder(c.left), [c.a]);
      var r' := r[c.a := q];
      assert c.a in [c.a] && c.a in InOrder(c.left) + [c.a] && c.a in Before(c);
      ShapeFrame(l, r, l, r', l[c.a], c.left);
      CtxFrame(l, r, l, r', top, c.up);
    }
  }

  /** The right tree takes `x` and its right subtree; the search goes on in the left one. */
  ghost function LinkedRight(l: Links, s: Splaying): Splaying
    requires s.t.Node? && s.x in l
  {
    s.(x := l[s.x], t := s.t.left, rightTop := FillTop(s.rightTop, s.rc, s.x), rc := InLeft(s.rc, s.x, s.t.right))
  }

  ghost function LinkedLeft(r: Links, s: Splaying): Splaying
    requires s.t.Node? && s.x in r
  {
    s.(x := r[s.x], t := s.t.right, leftTop := FillTop(s.leftTop, s.lc, s.x), lc := InRight(s.lc, s.t.left, s.x))
  }

  lemma LinkRightOrder(l: Links, s: Splaying)
    requires s.t.Node? && s.x in l && s.x == s.t.a
    ensures SplayOrder(LinkedRight(l, s)) == SplayOrder(s)
  {
    var a, b, c, x, d := Before(s.lc), InOrder(s.t.left), [s.x], InOrder(s.t.right), After(s.rc);
    assert a + (b + c + x) + d == a + b + (c + x + d);
  }

  lemma LinkLeftOrder(r: Links, s: Splaying)
    requires s.t.Node? && s.x in r && s.x == s.t.a
    ensures SplayOrder(LinkedLeft(r, s)) == SplayOrder(s)
  {
    var a, b, c, x, d := Before(s.lc), InOrder(s.t.left), [s.x], InOrder(s.t.right), After(s.rc);
    assert a + (b + c + x) + d == (a + (b + c)) + x + d;
  }

  lemma LinkRightKeeps(l: Links, r: Links, s: Splaying)
    requires SplayOk(l, r, s) && s.t.left.Node?
    ensures s.x in l && SplayOk(FillLinks(l, s.rc, s.x), r, LinkedRight(l, s))
            && SplayOrder(LinkedRight(l, s)) == SplayOrder(s)
  {
    DistinctThree(s);
    NodeParts(s.t);
    OneSided(s.lc);
    OneSided(s.rc);
    LinkRightOrder(l, s);
    DistinctParts(Before(s.lc) + InOrder(s.t), After(s.rc));
    assert Before(s.rc) + After(s.rc) == After(s.rc);
    FillHole(l, r, s.rightTop, s.rc, s.x);
    var l' := FillLinks(l, s.rc, s.x);
    if s.rc.InLeft? {
      assert s.rc.a in [s.rc.a] + InOrder(s.rc.right) && s.rc.a in After(s.rc);
    }
    ShapeFrame(l, r, l', r, l[s.x], s.t.left);
    ShapeFrame(l, r, l', r, r[s.x], s.t.right);
    CtxFrame(l, r, l', r, s.leftTop, s.lc);
  }

  lemma LinkLeftKeeps(l: Links, r: Links, s: Splaying)
    requires SplayOk(l, r, s) && s.t.right.Node?
    ensures s.x in r && SplayOk(l, FillLinks(r, s.lc, s.x), LinkedLeft(r, s))
            && SplayOrder(LinkedLeft(r, s)) == SplayOrder(s)
  {
    DistinctThree(s);
    NodeParts(s.t);
    OneSided(s.lc);
    OneSided(s.rc);
    LinkLeftOrder(r, s);
    DistinctParts(Before(s.lc) + InOrder(s.t), After(s.rc));
    DistinctParts(Before(s.lc), InOrder(s.t));
    assert Before(s.lc) + After(s.lc) == Before(s.lc);
    FillHole(l, r, s.leftTop, s.lc, s.x);
    var r' := FillLinks(r, s.lc, s.x);
    if s.lc.InRight? {
      assert s.lc.a in InOrder(s.lc.left) + [s.lc.a] && s.lc.a in Before(s.lc);
    }
    ShapeFrame(l, r, l, r', l[s.x], s.t.left);
    ShapeFrame(l, r, l, r', r[s.x], s.t.right);
    CtxFrame(l, r, l, r', s.rightTop, s.rc);
  }

  /** The tree that reassembly makes. */
  ghost function Reassembled(s: Splaying): Tree
    requires s.t.Node?
  {
    Node(Plug(s.lc, s.t.left), s.t.a, Plug(s.rc, s.t.right))
  }

  lemma FiveParts(b: seq<Addr>, l: seq<Addr>, x: Addr, r: seq<Addr>, f: seq<Addr>)
    ensures b + (l + [x] + r) + f == (b + l) + [x] + (r + f)
    ensures (b + (l + [x])) + r == b + (l + [x] + r)
    ensures ([x] + r) + f == [x] + (r + f)
  {
  }

  lemma ReassembledOrder(s: Splaying)
    requires s.t.Node? && OnlyRight(s.lc) && OnlyLeft(s.rc)
    ensures InOrder(Reassembled(s)) == SplayOrder(s)
    ensures InOrder(Reassembled(s).left) == Before(s.lc) + InOrder(s.t.left)
    ensures InOrder(Reassembled(s).right) == InOrder(s.t.right) + After(s.rc)
  {
    OneSided(s.lc);
    OneSided(s.rc);
    PlugInOrder(s.lc, s.t.left);
    PlugInOrder(s.rc, s.t.right);
    var a, b, x, d := Before(s.lc), InOrder(s.t.left), InOrder(s.t.right), After(s.rc);
    assert a + b + [] == a + b && [] + x + d == x + d;
    FiveParts(a, b, s.t.a, x, d);
  }

  /** One of the two holes filled with the subtree left over at `x`. */
  lemma FillLeftTree(l: Links, r: Links, s: Splaying)
    requires SplayOk(l, r, s)
    ensures s.x in l && s.x in r
    ensures var r' := FillLinks(r, s.lc, l[s.x]); var top := FillTop(s.leftTop, s.lc, l[s.x]);
            SplayOk(l, r', s.(leftTop := top)) && AtHole(l, r', top, s.lc) == l[s.x] && r'[s.x] == r[s.x]
  {
    DistinctThree(s);
    NodeParts(s.t);
    OneSided(s.lc);
    OneSided(s.rc);
    DistinctParts(Before(s.lc) + InOrder(s.t), After(s.rc));
    DistinctParts(Before(s.lc), InOrder(s.t));
    assert Before(s.lc) + After(s.lc) == Before(s.lc);
    FillHole(l, r, s.leftTop, s.lc, l[s.x]);
    var r' := FillLinks(r, s.lc, l[s.x]);
    if s.lc.InRight? {
      assert s.lc.a in InOrder(s.lc.left) + [s.lc.a] && s.lc.a in Before(s.lc);
    }
    ShapeFrame(l, r, l, r', s.x, s.t);
    CtxFrame(l, r, l, r', s.rightTop, s.rc);
  }

  lemma FillRightTree(l: Links, r: Links, s: Splaying)
    requires SplayOk(l, r, s)
    ensures s.x in l && s.x in r
    ensures var l' := FillLinks(l, s.rc, r[s.x]); var top := FillTop(s.rightTop, s.rc, r[s.x]);
            SplayOk(l', r, s.(rightTop := top)) && AtHole(l', r, top, s.rc) == r[s.x] && l'[s.x] == l[s.x]
    ensures AtHole(FillLinks(l, s.rc, r[s.x]), r, s.leftTop, s.lc) == AtHole(l, r, s.leftTop, s.lc)
  {
    DistinctThree(s);
    NodeParts(s.t);
    OneSided(s.lc);
    OneSided(s.rc);
    DistinctParts(Before(s.lc) + InOrder(s.t), After(s.rc));
    assert Before(s.rc) + After(s.rc) == After(s.rc);
    FillHole(l, r, s.rightTop, s.rc, r[s.x]);
    var l' := FillLinks(l, s.rc, r[s.x]);
    if s.rc.InLeft? {
      assert s.rc.a in [s.rc.a] + InOrder(s.rc.right) && s.rc.a in After(s.rc);
    }
    ShapeFrame(l, r, l', r, s.x, s.t);
    CtxFrame(l, r, l', r, s.leftTop, s.lc);
  }

  /** With both holes filled, `x` takes the two trees as children. */
  lemma TakeChildren(l: Links, r: Links, s: Splaying)
    requires SplayOk(l, r, s) && s.x in l && s.x in r
    requires AtHole(l, r, s.leftTop, s.lc) == l[s.x] && AtHole(l, r, s.rightTop, s.rc) == r[s.x]
    ensures Shape(l[s.x := s.leftTop], r[s.x := s.rightTop], s.x, Reassembled(s))
  {
    var l', r' := l[s.x := s.leftTop], r[s.x := s.rightTop];
    DistinctThree(s);
    NodeParts(s.t);
    OneSided(s.lc);
    OneSided(s.rc);
    CtxFrame(l, r, l', r', s.leftTop, s.lc);
    CtxFrame(l, r, l', r', s.rightTop, s.rc);
    ShapeFrame(l, r, l', r', l[s.x], s.t.left);
    ShapeFrame(l, r, l', r', r[s.x], s.t.right);
    if s.lc.InRight? {
      assert s.lc.a in InOrder(s.lc.left) + [s.lc.a] && s.lc.a in Before(s.lc);
    }
    if s.rc.InLeft? {
      assert s.rc.a in [s.rc.a] + InOrder(s.rc.right) && s.rc.a in After(s.rc);
    }
    PlugShape(l', r', s.leftTop, s.lc, s.t.left);
    PlugShape(l', r', s.rightTop, s.rc, s.t.right);
  }
}
