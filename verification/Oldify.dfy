// caml_oldify_one: the steps that copy one block, and the loop that follows
// the chain of single-field blocks.

module Oldify {
  import opened MinorHeap

  function Forward(s: State, a: Addr, fields: seq<Value>): State
    requires a in s.young && |s.young[a].fields| > 0
  {
    var b := s.young[a];
    s.(young := s.young[a := YoungBlock(true, b.scan, b.fields[0 := Major(s.top, 0)])],
       major := s.major[s.top := MajorBlock(b.scan, fields)],
       top := s.top + 1)
  }

  lemma CopyStays(f: Forwarding, a: Addr, top: Addr, r: Addr)
    requires a !in f && (r == top || IsCopy(f, r))
    ensures IsCopy(f[a := top], r)
  {
    var g := f[a := top];
    if r == top { assert g[a] == r; }
    else {
      var b :| b in f && f[b] == r;
      assert g[b] == r;
    }
  }

  lemma ForwardCopies(y: map<Addr, YoungBlock>, base: Addr, s: State, f: Forwarding, a: Addr, fields: seq<Value>)
    requires Copies(y, base, s, f) && WellFormed(y) && a in y && a !in f && |fields| == |y[a].fields|
    ensures Copies(y, base, Forward(s, a, fields), f[a := s.top])
    ensures Extends(f, f[a := s.top])
  {
    var t, g := Forward(s, a, fields), f[a := s.top];
    forall b | b in g ensures Copied(y, base, t, g, b) {
      if b in f { assert Copied(y, base, s, f, b); }
    }
    forall r | r in t.major && base <= r ensures IsCopy(g, r) {
      if r != s.top { assert IsCopy(f, r); }
      CopyStays(f, a, s.top, r);
    }
  }

  lemma SetCopies(y: map<Addr, YoungBlock>, base: Addr, s: State, f: Forwarding, p: Slot, v: Value)
    requires Copies(y, base, s, f) && IsSlot(s, p)
    ensures Copies(y, base, Set(s, p, v), f)
  {
    var t := Set(s, p, v);
    forall b | b in f ensures Copied(y, base, t, f, b) {
      assert Copied(y, base, s, f, b);
    }
    forall r | r in t.major && base <= r ensures IsCopy(f, r) {
      assert r in s.major;
    }
  }

  /** The to-do list depends only on the copies of its own blocks. */
  lemma {:induction false} TodoFrame(y: map<Addr, YoungBlock>, s: State, f: Forwarding, t: State, g: Forwarding,
      head: Value, l: seq<Addr>)
    requires TodoList(y, s, f, head, l) && Extends(f, g)
    requires forall a :: a in l && a in f && f[a] in s.major ==> f[a] in t.major && t.major[f[a]] == s.major[f[a]]
    ensures TodoList(y, t, g, head, l)
    decreases |l|
  {
    if l != [] {
      TodoFrame(y, s, f, t, g, s.major[f[l[0]]].fields[1], l[1..]);
    }
  }

  lemma {:induction false} TodoMembers(y: map<Addr, YoungBlock>, s: State, f: Forwarding, head: Value, l: seq<Addr>)
    requires TodoList(y, s, f, head, l)
    ensures forall a :: a in l ==> a in f && f[a] in s.major && a in y && |y[a].fields| > 1
    decreases |l|
  {
    if l != [] {
      TodoMembers(y, s, f, s.major[f[l[0]]].fields[1], l[1..]);
    }
  }

  lemma FinalFrame(y: map<Addr, YoungBlock>, s: State, f: Forwarding, t: State, g: Forwarding, a: Addr)
    requires a in f && a in y && AllFinal(y, s, f, a) && Extends(f, g)
    requires f[a] in s.major && f[a] in t.major && t.major[f[a]] == s.major[f[a]]
    ensures AllFinal(y, t, g, a)
  {
    forall i | 0 <= i < |y[a].fields| ensures Final(y, t, g, a, i) {
      assert Final(y, s, f, a, i);
    }
  }

  lemma SetTodo(y: map<Addr, YoungBlock>, t: State, g: Forwarding, p: Slot, w: Value, l: seq<Addr>)
    requires IsSlot(t, p) && TodoList(y, t, g, t.todo, l) && Apart(g, p, l)
    ensures TodoList(y, Set(t, p, w), g, t.todo, l)
  {
    TodoFrame(y, t, g, Set(t, p, w), g, t.todo, l);
  }

  lemma GetSet(t: State, p: Slot, w: Value, q: Slot)
    requires IsSlot(t, p) && IsSlot(t, q)
    ensures IsSlot(Set(t, p, w), q) && Get(Set(t, p, w), q) == if q == p then w else Get(t, q)
  {
  }

  /** Filling the slot without copying anything. */
  lemma SetProgress(y: map<Addr, YoungBlock>, s: State, f: Forwarding, p: Slot, w: Value, l: seq<Addr>)
    requires IsSlot(s, p) && TodoList(y, s, f, s.todo, l) && Apart(f, p, l)
    ensures Progress(y, s, f, Set(s, p, w), f, p, [], l)
  {
    SetTodo(y, s, f, p, w, l);
    assert [] + l == l;
  }

  /** The state after block `a` was copied and slot `p` was made to point to the copy. */
  function CopyInto(s: State, a: Addr, fields: seq<Value>, p: Slot): State
    requires a in s.young && |s.young[a].fields| > 0 && IsSlot(s, p) && (p.Field? ==> p.r != s.top)
  {
    Set(Forward(s, a, fields), p, Major(s.top, 0))
  }

  /** Blocks pushed by a call are younger than its slot, so the slot stays apart from the list. */
  lemma ApartExtends(y: map<Addr, YoungBlock>, base: Addr, s: State, f: Forwarding, g: Forwarding, p: Slot,
      pushed: seq<Addr>, l: seq<Addr>)
    requires Copies(y, base, s, f) && Extends(f, g) && IsSlot(s, p) && Apart(f, p, l) && forall a :: a in l ==> a in f
    requires forall a :: a in g && a !in f ==> s.top <= g[a]
    requires forall a :: a in pushed ==> a in g && a !in f
    ensures Apart(g, p, pushed + l)
  {
  }

  lemma ForwardPreserves(s: State, a: Addr, fields: seq<Value>, p: Slot)
    requires a in s.young && |s.young[a].fields| > 0 && forall r :: r in s.major ==> r < s.top
    ensures Preserved(s, Forward(s, a, fields), p)
  {
  }

  lemma SetPreserves(s: State, t: State, p: Slot, w: Value)
    requires Preserved(s, t, p) && IsSlot(t, p)
    ensures Preserved(s, Set(t, p, w), p)
  {
  }

  /** The facts shared by the three ways of copying block `a`. */
  lemma CopyIntoFacts(y: map<Addr, YoungBlock>, base: Addr, s: State, f: Forwarding, a: Addr, fields: seq<Value>,
      p: Slot, l: seq<Addr>)
    requires WellFormed(y) && Copies(y, base, s, f) && a in y && a !in f && |fields| == |y[a].fields|
    requires IsSlot(s, p) && TodoList(y, s, f, s.todo, l) && Apart(f, p, l)
    ensures p.Field? ==> p.r != s.top
    ensures var u, h := CopyInto(s, a, fields, p), f[a := s.top];
            && Copies(y, base, u, h) && Extends(f, h) && Preserved(s, u, p) && TodoList(y, u, h, s.todo, l) && a !in l
            && IsSlot(u, p) && Get(u, p) == Major(s.top, 0) && s.top in u.major && u.major[s.top].fields == fields
  {
    var t, h, w := Forward(s, a, fields), f[a := s.top], Major(s.top, 0);
    ForwardCopies(y, base, s, f, a, fields);
    SetCopies(y, base, t, h, p, w);
    TodoMembers(y, s, f, s.todo, l);
    ForwardTodo(y, s, f, a, fields, l);
    ApartExtends(y, base, s, f, h, p, [a], l);
    assert Apart(h, p, l) by { assert forall b :: b in l ==> b in [a] + l; }
    SetTodo(y, t, h, p, w, l);
    ForwardPreserves(s, a, fields, p);
    SetPreserves(s, t, p, w);
    GetSet(t, p, w, p);
  }

  lemma ForwardTodo(y: map<Addr, YoungBlock>, s: State, f: Forwarding, a: Addr, fields: seq<Value>, l: seq<Addr>)
    requires TodoList(y, s, f, s.todo, l) && a !in f && a in s.young && |s.young[a].fields| > 0
    requires forall r :: r in s.major ==> r < s.top
    ensures TodoList(y, Forward(s, a, fields), f[a := s.top], s.todo, l)
  {
    TodoMembers(y, s, f, s.todo, l);
    TodoFrame(y, s, f, Forward(s, a, fields), f[a := s.top], s.todo, l);
  }

  /** Linking a copied block in front of the to-do list. */
  lemma TodoCons(y: map<Addr, YoungBlock>, v: State, h: Forwarding, head: Value, a: Addr, l: seq<Addr>)
    requires TodoList(y, v, h, head, l) && a in h && a in y && a !in l
    requires h[a] in v.major && |v.major[h[a]].fields| == |y[a].fields| > 1
    requires v.major[h[a]].fields[0] == y[a].fields[0] && v.major[h[a]].fields[1] == head
    ensures TodoList(y, v.(todo := Young(a, 0)), h, Young(a, 0), [a] + l)
  {
    var u := v.(todo := Young(a, 0));
    TodoFrame(y, v, h, u, h, head, l);
    assert ([a] + l)[0] == a && ([a] + l)[1..] == l;
  }

  lemma LinkCopies(y: map<Addr, YoungBlock>, base: Addr, v: State, h: Forwarding, head: Value)
    requires Copies(y, base, v, h)
    ensures Copies(y, base, v.(todo := head), h)
  {
    var u := v.(todo := head);
    forall b | b in h ensures Copied(y, base, u, h, b) { assert Copied(y, base, v, h, b); }
    forall r | r in u.major && base <= r ensures IsCopy(h, r) { assert r in v.major; }
  }

  /** A scanned block of several fields goes on the to-do list. */
  lemma PushProgress(y: map<Addr, YoungBlock>, base: Addr, s: State, f: Forwarding, a: Addr, fields: seq<Value>,
      p: Slot, l: seq<Addr>)
    requires WellFormed(y) && Copies(y, base, s, f) && a in y && a !in f && |fields| == |y[a].fields| > 1
    requires IsSlot(s, p) && TodoList(y, s, f, s.todo, l) && Apart(f, p, l)
    requires fields[0] == y[a].fields[0] && fields[1] == s.todo
    ensures var u, h := CopyInto(s, a, fields, p).(todo := Young(a, 0)), f[a := s.top];
            Copies(y, base, u, h) && Progress(y, s, f, u, h, p, [a], l) && IsSlot(u, p) && Moved(h, Young(a, 0), Get(u, p))
  {
    var v, h := CopyInto(s, a, fields, p), f[a := s.top];
    CopyIntoFacts(y, base, s, f, a, fields, p, l);
    TodoCons(y, v, h, s.todo, a, l);
    LinkCopies(y, base, v, h, Young(a, 0));
  }

  /** A block that is not scanned is copied whole. */
  lemma RawProgress(y: map<Addr, YoungBlock>, base: Addr, s: State, f: Forwarding, a: Addr, p: Slot, l: seq<Addr>)
    requires WellFormed(y) && Copies(y, base, s, f) && a in y && a !in f && !y[a].scan
    requires IsSlot(s, p) && TodoList(y, s, f, s.todo, l) && Apart(f, p, l)
    ensures var u, h := CopyInto(s, a, y[a].fields, p), f[a := s.top];
            Copies(y, base, u, h) && Progress(y, s, f, u, h, p, [], l) && IsSlot(u, p) && Moved(h, Young(a, 0), Get(u, p))
  {
    var u, h := CopyInto(s, a, y[a].fields, p), f[a := s.top];
    CopyIntoFacts(y, base, s, f, a, y[a].fields, p, l);
    forall i | 0 <= i < |y[a].fields| ensures Final(y, u, h, a, i) {
      assert GoodValue(y, y[a].fields[i]);
    }
    assert AllFinal(y, u, h, a);
    assert [] + l == l;
  }

  /** A scanned block of one field: the tail call on that field finishes it. */
  lemma SingleProgress(y: map<Addr, YoungBlock>, base: Addr, s: State, f: Forwarding, a: Addr, fields: seq<Value>,
      p: Slot,
                       t: State, g: Forwarding, pushed: seq<Addr>, l: seq<Addr>)
    requires WellFormed(y) && Copies(y, base, s, f) && a in y && a !in f && |fields| == |y[a].fields| == 1
    requires IsSlot(s, p) && TodoList(y, s, f, s.todo, l) && Apart(f, p, l)
    requires Progress(y, CopyInto(s, a, fields, p), f[a := s.top], t, g, Field(s.top, 0), pushed, l)
    requires IsSlot(t, Field(s.top, 0)) && Moved(g, y[a].fields[0], Get(t, Field(s.top, 0)))
    ensures Progress(y, s, f, t, g, p, pushed, l) && IsSlot(t, p) && Moved(g, Young(a, 0), Get(t, p))
  {
    var u, h := CopyInto(s, a, fields, p), f[a := s.top];
    CopyIntoFacts(y, base, s, f, a, fields, p, l);
    PreservedTrans(s, u, t, p, s.top);
    SingleFinal(y, t, g, a, s.top);
  }

  lemma SingleFinal(y: map<Addr, YoungBlock>, t: State, g: Forwarding, a: Addr, r: Addr)
    requires a in y && a in g && g[a] == r && |y[a].fields| == 1
    requires IsSlot(t, Field(r, 0)) && Moved(g, y[a].fields[0], Get(t, Field(r, 0)))
    ensures AllFinal(y, t, g, a)
  {
    assert Final(y, t, g, a, 0);
  }

  lemma PreservedTrans(s: State, u: State, t: State, p: Slot, r: Addr)
    requires Preserved(s, u, p) && Preserved(u, t, Field(r, 0)) && r !in s.major && IsSlot(s, p)
    ensures Preserved(s, t, p) && IsSlot(t, p) && IsSlot(u, p) && Get(t, p) == Get(u, p)
  {
  }
}
