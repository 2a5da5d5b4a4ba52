// The minor collection itself: caml_oldify_one, caml_oldify_mopup and the
// skeleton of caml_empty_minor_heap, updating both heaps in place.

module MinorCollector {
  import opened MinorHeap
  import opened Oldify
  import opened Mopup

  class Minor {
    var young: map<Addr, YoungBlock>
    var major: map<Addr, MajorBlock>
    var roots: seq<Value>
    var todo: Value
    var top: Addr
    ghost var fwd: Forwarding

    ghost function S(): State
      reads this
    {
      State(young, major, roots, todo, top)
    }

    method Write(p: Slot, v: Value)
      requires IsSlot(S(), p)
      modifies this
      ensures S() == Set(old(S()), p, v) && fwd == old(fwd)
    {
      match p {
        case Root(i) => roots := roots[i := v];
        case Field(r, i) => major := major[r := major[r].(fields := major[r].fields[i := v])];
      }
    }

    /** caml_alloc_shr_for_minor_gc and the writes that set the forwarding pointer of `a`. */
    method Copy(a: Addr, fields: seq<Value>) returns (r: Addr)
      requires a in young && |young[a].fields| > 0
      modifies this
      ensures r == old(top) && S() == Forward(old(S()), a, fields) && fwd == old(fwd)[a := r]
    {
      r := top;
      top := top + 1;
      major := major[r := MajorBlock(young[a].scan, fields)];
      young := young[a := YoungBlock(true, young[a].scan, young[a].fields[0 := Major(r, 0)])];
      fwd := fwd[a := r];
    }

    /** caml_oldify_one; its tail call is the recursive call on the only field of the copy. */
    method OldifyOne(v: Value, p: Slot, ghost y: map<Addr, YoungBlock>, ghost base: Addr, ghost live: set<Addr>,
        ghost l: seq<Addr>)
      returns (ghost pushed: seq<Addr>)
      requires Ready(y, base, live, S(), fwd, l) && IsSlot(S(), p) && Apart(fwd, p, l)
      requires GoodValue(y, v) && (v.Young? ==> v.a in live)
      modifies this
      ensures Oldified(y, base, live, old(S()), old(fwd), S(), fwd, v, p, pushed, l)
      decreases y.Keys - fwd.Keys, if v.Young? && v.off > 0 then 3 else 2
    {
      ghost var s, f := S(), fwd;
      pushed := [];
      if !v.Young? {
        SetProgress(y, s, f, p, v, l);
        SetCopies(y, base, s, f, p, v);
        GetSet(s, p, v, p);
        Write(p, v);
      } else if v.off > 0 {
        pushed := OldifyOne(Young(v.a, 0), p, y, base, live, l);
        InfixProgress(y, base, s, f, S(), fwd, p, v, pushed, l);
        var w := Read(p);
        Write(p, Major(w.r, w.off + v.off));
      } else if young[v.a].forwarded {
        assert v.a in f && Copied(y, base, s, f, v.a);
        SetProgress(y, s, f, p, Major(f[v.a], 0), l);
        SetCopies(y, base, s, f, p, Major(f[v.a], 0));
        GetSet(s, p, Major(f[v.a], 0), p);
        Write(p, young[v.a].fields[0]);
      } else {
        pushed := OldifyFresh(v.a, p, y, base, live, l);
      }
    }

    /** The branches of caml_oldify_one that copy a block not forwarded yet. */
    method OldifyFresh(a: Addr, p: Slot, ghost y: map<Addr, YoungBlock>, ghost base: Addr, ghost live: set<Addr>,
        ghost l: seq<Addr>)
      returns (ghost pushed: seq<Addr>)
      requires Ready(y, base, live, S(), fwd, l) && IsSlot(S(), p) && Apart(fwd, p, l)
      requires a in live && a !in fwd
      modifies this
      ensures Oldified(y, base, live, old(S()), old(fwd), S(), fwd, Young(a, 0), p, pushed, l)
      decreases y.Keys - fwd.Keys, 1
    {
      ghost var s, f := S(), fwd;
      var sz, field0 := |young[a].fields|, young[a].fields[0];
      if !young[a].scan {
        pushed := [];
        RawProgress(y, base, s, f, a, p, l);
        var r := Copy(a, young[a].fields);
        Write(p, Major(r, 0));
      } else if sz > 1 {
        var fields := [field0, todo] + seq(sz - 2, _ => Int(0));
        pushed := [a];
        PushProgress(y, base, s, f, a, fields, p, l);
        var r := Copy(a, fields);
        Write(p, Major(r, 0));
        todo := Young(a, 0);
      } else {
        pushed := OldifySingle(a, p, y, base, live, l);
      }
    }

    /** A block of one field: copy it, then go on with that field (the tail call). */
    method OldifySingle(a: Addr, p: Slot, ghost y: map<Addr, YoungBlock>, ghost base: Addr, ghost live: set<Addr>,
        ghost l: seq<Addr>)
      returns (ghost pushed: seq<Addr>)
      requires Ready(y, base, live, S(), fwd, l) && IsSlot(S(), p) && Apart(fwd, p, l)
      requires a in live && a !in fwd && y[a].scan && |y[a].fields| == 1
      modifies this
      ensures Oldified(y, base, live, old(S()), old(fwd), S(), fwd, Young(a, 0), p, pushed, l)
      decreases y.Keys - fwd.Keys, 0
    {
      ghost var s, f := S(), fwd;
      var field0 := young[a].fields[0];
      CopyIntoFacts(y, base, s, f, a, [Int(0)], p, l);
      TailReady(y, base, s, f, a, p, live, l);
      var r := Copy(a, [Int(0)]);
      Write(p, Major(r, 0));
      pushed := OldifyOne(field0, Field(r, 0), y, base, live, l);
      SingleProgress(y, base, s, f, a, [Int(0)], p, S(), fwd, pushed, l);
    }

    /** One turn of the loop of caml_oldify_mopup: the head of the list is finished. */
    method MopupOne(ghost y: map<Addr, YoungBlock>, ghost base: Addr, ghost live: set<Addr>, ghost s0: State,
        ghost d: set<Slot>, ghost l: seq<Addr>)
      returns (ghost l': seq<Addr>)
      requires Ready(y, base, live, S(), fwd, l) && Finished(y, S(), fwd, l, {}) && l != []
      requires s0.top == base && (forall r :: r in s0.major ==> r < base) && Carried(s0, S(), fwd, d)
      modifies this
      ensures Ready(y, base, live, S(), fwd, l') && Finished(y, S(), fwd, l', {})
      ensures Carried(s0, S(), fwd, d) && Extends(old(fwd), fwd)
      ensures y.Keys - fwd.Keys < y.Keys - old(fwd).Keys || (fwd.Keys == old(fwd).Keys && l' == l[1..])
    {
      StartScan(y, base, live, S(), fwd, l);
      var v := todo.a;
      var newV := young[v].fields[0].r;
      todo := major[newV].fields[1];
      l' := l[1..];
      assert Carried(s0, S(), fwd, d);
      var i := 0;
      while i < |major[newV].fields|
        invariant newV in major && v in y && v in fwd && fwd[v] == newV && |major[newV].fields| == |y[v].fields|
        invariant Scanning(y, base, live, S(), fwd, v, i, l')
        invariant Carried(s0, S(), fwd, d) && Extends(old(fwd), fwd)
        invariant fwd.Keys > old(fwd).Keys || (fwd.Keys == old(fwd).Keys && l' == l[1..])
        decreases |y[v].fields| - i
      {
        l' := MopupField(v, newV, i, y, base, live, s0, d, l');
        i := i + 1;
      }
      EndScan(y, base, live, S(), fwd, v, l');
      Shrinks(y.Keys, old(fwd).Keys, fwd.Keys);
    }

    /** Field `i` of the block being finished; field 0 was saved in the copy. */
    method MopupField(v: Addr, newV: Addr, i: nat, ghost y: map<Addr, YoungBlock>, ghost base: Addr,
        ghost live: set<Addr>,
                      ghost s0: State, ghost d: set<Slot>, ghost l: seq<Addr>)
      returns (ghost l': seq<Addr>)
      requires v in y && v in fwd && fwd[v] == newV && i < |y[v].fields|
      requires Scanning(y, base, live, S(), fwd, v, i, l)
      requires s0.top == base && (forall r :: r in s0.major ==> r < base) && Carried(s0, S(), fwd, d)
      modifies this
      ensures Scanning(y, base, live, S(), fwd, v, i + 1, l')
      ensures Carried(s0, S(), fwd, d) && Extends(old(fwd), fwd)
      ensures newV in major && v in fwd && fwd[v] == newV && |major[newV].fields| == |y[v].fields|
      ensures fwd.Keys > old(fwd).Keys || (fwd.Keys == old(fwd).Keys && l' == l)
    {
      ghost var s, f := S(), fwd;
      ScanReady(y, base, live, s, f, v, i, l);
      var x := if i == 0 then major[newV].fields[0] else young[v].fields[i];
      if x.Young? {
        ghost var pushed := OldifyOne(x, Field(newV, i), y, base, live, l);
        ScanYoung(y, base, live, s, f, v, i, l, S(), fwd, pushed);
        CarriedCopies(s0, s, f, S(), fwd, d, Field(newV, i));
        PushedOrNot(f, fwd, pushed, l);
        l' := pushed + l;
      } else {
        ScanOther(y, base, live, s, f, v, i, l);
        Write(Field(newV, i), x);
        SetPreserves(s, s, Field(newV, i), x);
        CarriedCopies(s0, s, f, S(), fwd, d, Field(newV, i));
        l' := l;
      }
    }

    /** caml_oldify_mopup, without ephemerons: every block on the list is finished. */
    method OldifyMopup(ghost y: map<Addr, YoungBlock>, ghost base: Addr, ghost live: set<Addr>, ghost s0: State,
        ghost d: set<Slot>, ghost l0: seq<Addr>)
      requires Ready(y, base, live, S(), fwd, l0) && Finished(y, S(), fwd, l0, {})
      requires s0.top == base && (forall r :: r in s0.major ==> r < base) && Carried(s0, S(), fwd, d)
      modifies this
      ensures Ready(y, base, live, S(), fwd, []) && Finished(y, S(), fwd, [], {})
      ensures Carried(s0, S(), fwd, d)
    {
      ghost var l := l0;
      while todo != NIL
        invariant Ready(y, base, live, S(), fwd, l) && Finished(y, S(), fwd, l, {}) && Carried(s0, S(), fwd, d)
        decreases y.Keys - fwd.Keys, |l|
      {
        l := MopupOne(y, base, live, s0, d, l);
      }
    }

    /** caml_oldify_one on a slot that existed before the collection. */
    method OldifySlot(p: Slot, ghost live: set<Addr>, ghost s0: State, ghost d: set<Slot>, ghost l: seq<Addr>)
      returns (ghost l': seq<Addr>)
      requires Startable(s0) && Ready(s0.young, s0.top, live, S(), fwd, l) && Finished(s0.young, S(), fwd, l, {})
      requires Carried(s0, S(), fwd, d) && IsSlot(s0, p) && (Get(s0, p).Young? ==> Get(s0, p).a in live)
      modifies this
      ensures Ready(s0.young, s0.top, live, S(), fwd, l') && Finished(s0.young, S(), fwd, l', {})
      ensures Carried(s0, S(), fwd, d + {p})
    {
      ghost var s, f := S(), fwd;
      SlotReady(s0, s, f, live, d, p, l);
      var v := Read(p);
      ghost var pushed := OldifyOne(v, p, s0.young, s0.top, live, l);
      OldifiedFinished(s0.young, s0.top, live, s, f, S(), fwd, v, p, pushed, l, {});
      CarriedOldified(s0, s, f, S(), fwd, d, p, v);
      l' := pushed + l;
    }

    /** The collection skeleton of caml_empty_minor_heap: roots, remembered slots, then the to-do
        list.  Every live young block is copied exactly once, and everything that pointed to it
        points to its copy. */
    method EmptyMinorHeap(refTable: seq<Slot>)
      requires Startable(S()) && AllRemembered(S(), refTable) && forall q :: q in refTable ==> IsSlot(S(), q)
      requires fwd == map[]
      modifies this
      ensures Collected(old(S()), refTable, S(), fwd)
    {
      ghost var s0 := S();
      ghost var live := YoungLive(s0, refTable);
      YoungLiveClosed(s0, refTable);
      ghost var d: set<Slot>, l: seq<Addr> := {}, [];
      var i := 0;
      while i < |roots|
        invariant 0 <= i <= |roots| == |s0.roots|
        invariant Ready(s0.young, s0.top, live, S(), fwd, l) && Finished(s0.young, S(), fwd, l, {})
        invariant Carried(s0, S(), fwd, d) && forall j :: 0 <= j < i ==> Root(j) in d
      {
        assert IsSlot(s0, Root(i)) && (Get(s0, Root(i)).Young? ==> Roots(s0, refTable, Get(s0, Root(i)).a));
        l := OldifySlot(Root(i), live, s0, d, l);
        d := d + {Root(i)};
        i := i + 1;
      }
      i := 0;
      while i < |refTable|
        invariant 0 <= i <= |refTable|
        invariant Ready(s0.young, s0.top, live, S(), fwd, l) && Finished(s0.young, S(), fwd, l, {})
        invariant Carried(s0, S(), fwd, d) && (forall j :: 0 <= j < |s0.roots| ==> Root(j) in d)
        invariant forall j :: 0 <= j < i ==> refTable[j] in d
      {
        assert IsSlot(s0, refTable[i]) && (Get(s0, refTable[i]).Young? ==> Roots(s0, refTable, Get(s0, refTable[i]).a));
        l := OldifySlot(refTable[i], live, s0, d, l);
        d := d + {refTable[i]};
        i := i + 1;
      }
      OldifyMopup(s0.young, s0.top, live, s0, d, l);
      CollectedFrom(s0, refTable, S(), fwd, d);
    }

    method Read(p: Slot) returns (v: Value)
      requires IsSlot(S(), p)
      ensures v == Get(S(), p)
    {
      match p {
        case Root(i) => v := roots[i];
        case Field(r, i) => v := major[r].fields[i];
      }
    }
  }

  /** The tail call finds its preconditions. */
  lemma TailReady(y: map<Addr, YoungBlock>, base: Addr, s: State, f: Forwarding, a: Addr, p: Slot, live: set<Addr>,
      l: seq<Addr>)
    requires Ready(y, base, live, s, f, l) && IsSlot(s, p) && Apart(f, p, l)
    requires a in live && a !in f && |y[a].fields| == 1
    ensures var u, h := CopyInto(s, a, [Int(0)], p), f[a := s.top];
            && Ready(y, base, live, u, h, l) && IsSlot(u, Field(s.top, 0)) && Apart(h, Field(s.top, 0), l)
    ensures GoodValue(y, y[a].fields[0]) && (y[a].fields[0].Young? ==> y[a].fields[0].a in live)
  {
    CopyIntoFacts(y, base, s, f, a, [Int(0)], p, l);
    TodoMembers(y, s, f, s.todo, l);
  }

  /** Adding the infix offset to the slot after its block was oldified. */
  lemma InfixProgress(y: map<Addr, YoungBlock>, base: Addr, s: State, f: Forwarding, t: State, g: Forwarding, p: Slot,
      v: Value,
                      pushed: seq<Addr>, l: seq<Addr>)
    requires v.Young? && Copies(y, base, s, f) && Copies(y, base, t, g) && IsSlot(s, p) && Apart(f, p, l)
    requires TodoList(y, s, f, s.todo, l)
    requires Progress(y, s, f, t, g, p, pushed, l) && IsSlot(t, p) && Moved(g, Young(v.a, 0), Get(t, p))
    ensures var w := Major(g[v.a], v.off); var u := Set(t, p, w);
            Copies(y, base, u, g) && Progress(y, s, f, u, g, p, pushed, l) && IsSlot(u, p) && Moved(g, v, Get(u, p))
  {
    var w := Major(g[v.a], v.off);
    var u := Set(t, p, w);
    SetCopies(y, base, t, g, p, w);
    TodoMembers(y, s, f, s.todo, l);
    ApartExtends(y, base, s, f, g, p, pushed, l);
    SetTodo(y, t, g, p, w, pushed + l);
    SetPreserves(s, t, p, w);
    GetSet(t, p, w, p);
    forall a | a in g && a !in f && a !in pushed && a in y ensures AllFinal(y, u, g, a) {
      assert Copied(y, base, t, g, a);
      FinalFrame(y, t, g, u, g, a);
    }
  }

  lemma Shrinks(y: set<Addr>, f: set<Addr>, g: set<Addr>)
    requires f <= g <= y
    ensures g > f ==> y - g < y - f
  {
    if g > f {
      var a :| a in g && a !in f;
      assert a in y - f && a !in y - g;
    }
  }

  /** When no block was forwarded, nothing was pushed. */
  lemma PushedOrNot(f: Forwarding, g: Forwarding, pushed: seq<Addr>, l: seq<Addr>)
    requires Extends(f, g) && forall a :: a in pushed ==> a in g && a !in f
    ensures g.Keys > f.Keys || (g.Keys == f.Keys && pushed + l == l)
  {
    if pushed != [] {
      assert pushed[0] in g.Keys && pushed[0] !in f.Keys;
    }
  }

  lemma SlotReady(s0: State, s: State, f: Forwarding, live: set<Addr>, d: set<Slot>, p: Slot, l: seq<Addr>)
    requires Startable(s0) && Ready(s0.young, s0.top, live, s, f, l) && Carried(s0, s, f, d) && IsSlot(s0, p)
    requires Get(s0, p).Young? ==> Get(s0, p).a in live
    ensures IsSlot(s, p) && Apart(f, p, l) && GoodValue(s0.young, Get(s, p))
            && (Get(s, p).Young? ==> Get(s, p).a in live)
  {
    assert CarriedSlot(s0, s, f, d, p);
    TodoMembers(s0.young, s, f, s.todo, l);
    forall a | a in l && a in f && p.Field? ensures f[a] != p.r {
      assert Copied(s0.young, s0.top, s, f, a);
    }
  }
}
