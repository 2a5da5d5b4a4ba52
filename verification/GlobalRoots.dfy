// Generational global roots (globroots.c): which list holds a root, over any
// sequence of registrations, modifications, removals and minor collections.

module GlobalRoots {
  import opened SkipList

  datatype Value = Immediate(n: int) | YoungBlock(a: nat) | MajorBlock(a: nat) | OutOfHeap(a: nat)

  datatype GcRootClass = YOUNG | OLD | UNTRACKED

  /** classify_gc_root */
  function Classify(v: Value): GcRootClass {
    if v.YoungBlock? then YOUNG else if v.MajorBlock? then OLD else UNTRACKED
  }

  /** What a minor collection does to the value in a root: a young block is promoted. */
  ghost predicate Promotes(f: Value -> Value) {
    forall v :: if Classify(v) == YOUNG then Classify(f(v)) == OLD else f(v) == v
  }

  // ---------------------------------------------------------------- runs

  /** The two lists, the contents of the roots, and the roots that are registered. */
  datatype State = State(young: set<Root>, oldRoots: set<Root>, mem: map<Root, Value>, registered: set<Root>)

  datatype Event = Register(r: Root) | Modify(r: Root, v: Value) | Remove(r: Root) | ScanYoung(f: Value -> Value)

  /** A root is registered once, and modified or removed only while it is registered. */
  ghost predicate Allowed(s: State, e: Event) {
    match e
    case Register(r) => r != HEAD && r in s.mem && r !in s.registered
    case Modify(r, _) => r in s.registered
    case Remove(r) => r in s.registered
    case ScanYoung(f) => Promotes(f)
  }

  ghost function Removed(s: State, r: Root): State
    requires r in s.mem
  {
    match Classify(s.mem[r])
    case OLD => s.(young := s.young - {r}, oldRoots := s.oldRoots - {r})
    case YOUNG => s.(young := s.young - {r})
    case UNTRACKED => s
  }

  ghost function Step(s: State, e: Event): State
    requires (e.Register? || e.Modify? || e.Remove?) ==> e.r in s.mem
  {
    match e
    case Register(r) =>
      var t := s.(registered := s.registered + {r});
      (match Classify(s.mem[r])
       case YOUNG => t.(young := s.young + {r})
       case OLD => t.(oldRoots := s.oldRoots + {r})
       case UNTRACKED => t)
    case Modify(r, v) =>
      var c := Classify(s.mem[r]);
      var t := match Classify(v)
        case YOUNG =>
          s.(oldRoots := if c == OLD then s.oldRoots - {r} else s.oldRoots, young := if c != YOUNG then s.young + {r} else s.young)
        case OLD => if c == UNTRACKED then s.(oldRoots := s.oldRoots + {r}) else s
        case UNTRACKED => Removed(s, r);
      t.(mem := s.mem[r := v])
    case Remove(r) => Removed(s, r).(registered := s.registered - {r})
    case ScanYoung(f) =>
      State({}, s.oldRoots + s.young, map r | r in s.mem :: if r in s.young then f(s.mem[r]) else s.mem[r], s.registered)
  }

  /** A root with a young pointer is in the young list only, one with a pointer to the major heap in
      exactly one list, any other in none; unregistered roots are in none. */
  ghost predicate Placed(s: State, r: Root) {
    if r !in s.registered then r !in s.young && r !in s.oldRoots
    else
      && r in s.mem && r != HEAD
      && match Classify(s.mem[r])
         case YOUNG => r in s.young && r !in s.oldRoots
         case OLD => (r in s.young) != (r in s.oldRoots)
         case UNTRACKED => r !in s.young && r !in s.oldRoots
  }

  ghost predicate Inv(s: State) {
    forall r {:trigger Placed(s, r)} :: Placed(s, r)
  }

  lemma StepKeeps(s: State, e: Event)
    requires Inv(s) && Allowed(s, e)
    ensures (e.Register? || e.Modify? || e.Remove?) ==> e.r in s.mem
    ensures Inv(Step(s, e))
  {
    if !e.ScanYoung? { assert Placed(s, e.r); }
    var t := Step(s, e);
    forall r ensures Placed(t, r) {
      assert Placed(s, r);
    }
  }

  ghost predicate RunAllowed(s: State, es: seq<Event>)
    decreases |es|
  {
    es == [] || (Allowed(s, es[0]) && ((es[0].Register? || es[0].Modify? || es[0].Remove?) ==> es[0].r in s.mem)
                 && RunAllowed(Step(s, es[0]), es[1..]))
  }

  ghost function Run(s: State, es: seq<Event>): State
    requires RunAllowed(s, es)
    decreases |es|
  {
    if es == [] then s else Run(Step(s, es[0]), es[1..])
  }

  /** The invariant holds over every run, so a minor collection, which scans the young list, sees every
      young pointer in a registered root. */
  lemma {:induction false} RunKeeps(s: State, es: seq<Event>)
    requires Inv(s) && RunAllowed(s, es)
    ensures Inv(Run(s, es))
    ensures forall r :: r in Run(s, es).registered && r in Run(s, es).mem && Classify(Run(s, es).mem[r]) == YOUNG ==> r in Run(s, es).young
    decreases |es|
  {
    if es == [] {
      forall r | r in s.registered && r in s.mem && Classify(s.mem[r]) == YOUNG ensures r in s.young { assert Placed(s, r); }
    } else {
      StepKeeps(s, es[0]);
      RunKeeps(Step(s, es[0]), es[1..]);
    }
  }

  /** After the scan of a minor collection no registered root holds a young pointer. */
  lemma NoYoungRootAfterScan(s: State, f: Value -> Value)
    requires Inv(s) && Promotes(f)
    ensures var t := Step(s, ScanYoung(f)); t.young == {} && forall r :: r in t.registered && r in t.mem ==> Classify(t.mem[r]) != YOUNG
  {
    forall r | r in s.registered && r in s.mem ensures Classify(s.mem[r]) == YOUNG ==> r in s.young { assert Placed(s, r); }
  }

  // ---------------------------------------------------------------- the lists

  class Lists {
    const random: Random
    const young: RootList
    const oldRoots: RootList
    var mem: map<Root, Value>
    ghost var registered: set<Root>

    ghost predicate Valid()
      reads this, young, oldRoots
    {
      young != oldRoots && young.Valid() && oldRoots.Valid() && young.random == random == oldRoots.random
    }

    ghost function S(): State
      reads this, young, oldRoots
      requires Valid()
    {
      State(young.Roots(), oldRoots.Roots(), mem, registered)
    }

    constructor (mem: map<Root, Value>)
      ensures Valid() && S() == State({}, {}, mem, {}) && Inv(S()) && fresh(young) && fresh(oldRoots) && fresh(random)
    {
      var g := new Random();
      random := g;
      young := new RootList(g);
      oldRoots := new RootList(g);
      this.mem := mem;
      registered := {};
      new;
      forall r ensures Placed(S(), r) { }
    }

    /** caml_register_generational_global_root */
    method RegisterRoot(r: Root)
      requires Valid() && r != HEAD && r in mem
      modifies this, random, young, oldRoots
      ensures Valid() && S() == Step(old(S()), Register(r))
    {
      match Classify(mem[r]) {
        case YOUNG => young.Insert(r);
        case OLD => oldRoots.Insert(r);
        case UNTRACKED =>
      }
      registered := registered + {r};
    }

    method RemoveFromLists(r: Root)
      requires Valid() && r != HEAD && r in mem
      modifies young, oldRoots
      ensures Valid() && S() == Removed(old(S()), r)
    {
      match Classify(mem[r]) {
        case OLD =>
          oldRoots.Delete(r);
          young.Delete(r);
        case YOUNG => young.Delete(r);
        case UNTRACKED =>
      }
    }

    /** caml_remove_generational_global_root */
    method RemoveRoot(r: Root)
      requires Valid() && r != HEAD && r in mem
      modifies this, young, oldRoots
      ensures Valid() && S() == Step(old(S()), Remove(r))
    {
      RemoveFromLists(r);
      registered := registered - {r};
    }

    /** caml_modify_generational_global_root */
    method ModifyRoot(r: Root, v: Value)
      requires Valid() && r != HEAD && r in mem
      modifies this, random, young, oldRoots
      ensures Valid() && S() == Step(old(S()), Modify(r, v))
    {
      match Classify(v) {
        case YOUNG =>
          var c := Classify(mem[r]);
          if c == OLD { oldRoots.Delete(r); }
          if c != YOUNG { young.Insert(r); }
        case OLD =>
          if Classify(mem[r]) == UNTRACKED { oldRoots.Insert(r); }
        case UNTRACKED => RemoveFromLists(r);
      }
      mem := mem[r := v];
    }

    /** caml_scan_global_young_roots: every root of the young list is scanned, then moves to the old list. */
    method ScanYoungRoots(f: Value -> Value)
      requires Valid() && young.Roots() <= mem.Keys
      modifies this, random, young, oldRoots
      ensures Valid() && S() == Step(old(S()), ScanYoung(f))
    {
      var roots := young.Iterate();
      ghost var s := S();
      var i := 0;
      while i < |roots|
        invariant 0 <= i <= |roots| && Valid() && registered == s.registered
        invariant young.Roots() == s.young && oldRoots.Roots() == s.oldRoots
        invariant mem.Keys == s.mem.Keys
        invariant forall r :: r in mem ==> mem[r] == if r in roots[..i] then f(s.mem[r]) else s.mem[r]
        modifies `mem
      {
        var r := roots[i];
        assert r in s.young && r !in roots[..i];
        mem := mem[r := f(mem[r])];
        assert roots[..i + 1] == roots[..i] + [r];
        i := i + 1;
      }
      assert roots[..|roots|] == roots;
      i := 0;
      while i < |roots|
        invariant 0 <= i <= |roots| && Valid() && young.Roots() == s.young
        invariant oldRoots.Roots() == s.oldRoots + set r | r in roots[..i]
        modifies oldRoots, random
      {
        assert roots[i] in s.young;
        oldRoots.Insert(roots[i]);
        assert roots[..i + 1] == roots[..i] + [roots[i]];
        i := i + 1;
      }
      young.Empty();
      assert oldRoots.Roots() == s.oldRoots + s.young;
    }
  }
}
