// The copying minor collector (minor_gc.c).  A forwarded block keeps its
// contents except for field 0, which holds the forwarding pointer; the list of
// blocks still to be scanned is threaded through field 1 of their copies.

module MinorHeap {

  type Addr = nat

  /** A pointer names the block it points into and the offset of the infix header it points to,
      0 for the block itself. */
  datatype Value = Int(n: int) | Young(a: Addr, off: nat) | Major(r: Addr, off: nat)

  /** `forwarded` is the header being 0; `scan` is tag < No_scan_tag. */
  datatype YoungBlock = YoungBlock(forwarded: bool, scan: bool, fields: seq<Value>)

  datatype MajorBlock = MajorBlock(scan: bool, fields: seq<Value>)

  datatype Slot = Root(i: nat) | Field(r: Addr, i: nat)

  datatype State = State(
    young: map<Addr, YoungBlock>,
    major: map<Addr, MajorBlock>,
    roots: seq<Value>,
    todo: Value,
    top: Addr)

  type Forwarding = map<Addr, Addr>

  const NIL := Int(0)

  // ---------------------------------------------------------------- slots

  predicate IsSlot(s: State, p: Slot) {
    match p
    case Root(i) => i < |s.roots|
    case Field(r, i) => r in s.major && i < |s.major[r].fields|
  }

  function Get(s: State, p: Slot): Value
    requires IsSlot(s, p)
  {
    match p
    case Root(i) => s.roots[i]
    case Field(r, i) => s.major[r].fields[i]
  }

  function Set(s: State, p: Slot, v: Value): State
    requires IsSlot(s, p)
  {
    match p
    case Root(i) => s.(roots := s.roots[i := v])
    case Field(r, i) => s.(major := s.major[r := s.major[r].(fields := s.major[r].fields[i := v])])
  }

  // ---------------------------------------------------------------- the young graph

  /** Blocks are unforwarded and non-empty, pointers lead to blocks, infix pointers into scanned
      ones, and blocks that are not scanned hold no pointer. */
  ghost predicate WellFormed(y: map<Addr, YoungBlock>) {
    forall a :: a in y ==>
      && !y[a].forwarded && |y[a].fields| > 0
      && forall i :: 0 <= i < |y[a].fields| ==> GoodValue(y, y[a].fields[i]) && (y[a].scan || !y[a].fields[i].Young?)
  }

  /** An infix pointer leads into a scanned block of two fields or more. */
  ghost predicate GoodValue(y: map<Addr, YoungBlock>, v: Value) {
    v.Young? ==> v.a in y && (v.off > 0 ==> y[v.a].scan && |y[v.a].fields| > 1)
  }

  ghost predicate YoungClosed(y: map<Addr, YoungBlock>, live: set<Addr>) {
    && live <= y.Keys
    && forall a, i :: a in live && a in y && 0 <= i < |y[a].fields| && y[a].fields[i].Young? ==> y[a].fields[i].a in live
  }

  /** `w` is what `v` becomes once its target has been copied. */
  ghost predicate Moved(f: Forwarding, v: Value, w: Value) {
    if v.Young? then v.a in f && w == Major(f[v.a], v.off) else w == v
  }

  // ---------------------------------------------------------------- copies

  ghost predicate IsCopy(f: Forwarding, r: Addr) {
    exists a :: a in f && f[a] == r
  }

  /** Forwarded blocks point to their copies, the others are untouched. */
  ghost predicate Copies(y: map<Addr, YoungBlock>, base: Addr, s: State, f: Forwarding) {
    && s.young.Keys == y.Keys && f.Keys <= y.Keys && base <= s.top
    && (forall a :: a in y && a !in f ==> s.young[a] == y[a])
    && (forall a :: a in f ==> Copied(y, base, s, f, a))
    && (forall a, b :: a in f && b in f && f[a] == f[b] ==> a == b)
    && (forall r :: r in s.major ==> r < s.top)
    && forall r {:trigger IsCopy(f, r)} :: r in s.major && base <= r ==> IsCopy(f, r)
  }

  ghost predicate Copied(y: map<Addr, YoungBlock>, base: Addr, s: State, f: Forwarding, a: Addr)
    requires a in f
  {
    && a in y && a in s.young && |y[a].fields| > 0
    && s.young[a] == YoungBlock(true, y[a].scan, y[a].fields[0 := Major(f[a], 0)])
    && f[a] in s.major && base <= f[a]
    && s.major[f[a]].scan == y[a].scan && |s.major[f[a]].fields| == |y[a].fields|
  }

  /** Field `i` of the copy of `a` has its final value. */
  ghost predicate Final(y: map<Addr, YoungBlock>, s: State, f: Forwarding, a: Addr, i: nat)
    requires a in f && a in y && i < |y[a].fields|
  {
    f[a] in s.major && i < |s.major[f[a]].fields| && Moved(f, y[a].fields[i], s.major[f[a]].fields[i])
  }

  ghost predicate AllFinal(y: map<Addr, YoungBlock>, s: State, f: Forwarding, a: Addr)
    requires a in f && a in y
  {
    forall i :: 0 <= i < |y[a].fields| ==> Final(y, s, f, a, i)
  }

  /** The to-do list is `l`: each copy's field 1 links to the next block, its field 0 is raw. */
  ghost predicate TodoList(y: map<Addr, YoungBlock>, s: State, f: Forwarding, head: Value, l: seq<Addr>)
    decreases |l|
  {
    if l == [] then head == NIL
    else
      && head == Young(l[0], 0) && l[0] in f && l[0] in y && l[0] !in l[1..]
      && f[l[0]] in s.major && |s.major[f[l[0]]].fields| == |y[l[0]].fields| > 1
      && s.major[f[l[0]]].fields[0] == y[l[0]].fields[0]
      && TodoList(y, s, f, s.major[f[l[0]]].fields[1], l[1..])
  }

  /** A block allocated earlier keeps its contents, except possibly at slot `p`. */
  ghost predicate Preserved(s: State, t: State, p: Slot) {
    && |t.roots| == |s.roots| && s.top <= t.top
    && (forall i :: 0 <= i < |s.roots| && p != Root(i) ==> t.roots[i] == s.roots[i])
    && (forall r :: r in t.major && r !in s.major ==> s.top <= r)
    && forall r :: r in s.major ==>
         && r in t.major && t.major[r].scan == s.major[r].scan && |t.major[r].fields| == |s.major[r].fields|
         && forall i :: 0 <= i < |s.major[r].fields| && p != Field(r, i) ==> t.major[r].fields[i] == s.major[r].fields[i]
  }

  ghost predicate Extends(f: Forwarding, g: Forwarding) {
    f.Keys <= g.Keys && forall a :: a in f ==> g[a] == f[a]
  }

  /** What caml_oldify_one, called for slot `p`, has done since state `s`: the blocks newly
      forwarded are finished or were pushed on the to-do list, and nothing older changed. */
  ghost predicate Progress(y: map<Addr, YoungBlock>, s: State, f: Forwarding, t: State, g: Forwarding,
                           p: Slot, pushed: seq<Addr>, l: seq<Addr>)
  {
    && Extends(f, g) && Preserved(s, t, p)
    && TodoList(y, t, g, t.todo, pushed + l)
    && (forall a :: a in pushed ==> a in g && a !in f)
    && (forall a :: a in g && a !in f ==> s.top <= g[a])
    && forall a :: a in g && a !in f && a !in pushed && a in y ==> AllFinal(y, t, g, a)
  }

  /** The slot passed to caml_oldify_one is in no block of the to-do list. */
  ghost predicate Apart(f: Forwarding, p: Slot, l: seq<Addr>) {
    p.Field? ==> forall a :: a in l && a in f ==> f[a] != p.r
  }
}
