// The frame-descriptor hash table of the native-code runtime (roots_nat.c):
// registration with growth, lookup by return address, and deletion by
// back-shifting a linear-probing run.

module FrameTable {
  import opened Basics
  import opened Probing

  /** A frame descriptor: its own address and the return address it describes. */
  datatype Descr = Descr(address: nat, retaddr: nat)

  /** Hash_retaddr for a table of `n` slots; `hash` stands for the shift before masking. */
  function Home(hash: nat -> nat, n: nat): (h: Descr -> nat)
    requires n > 0
    ensures forall d :: h(d) < n
  {
    (d: Descr) => hash(d.retaddr) % n
  }

  function Flatten(tables: seq<seq<Descr>>): seq<Descr> {
    if tables == [] then [] else tables[0] + Flatten(tables[1..])
  }

  lemma {:induction false} FlattenConcat(a: seq<seq<Descr>>, b: seq<seq<Descr>>)
    ensures Flatten(a + b) == Flatten(a) + Flatten(b)
  {
    if a == [] {
      assert a + b == b;
    } else {
      assert (a + b)[1..] == a[1..] + b;
      FlattenConcat(a[1..], b);
    }
  }

  /** caml_frame_descriptors, its mask, num_descr and the list of registered tables. */
  class Descriptors {
    const hash: nat -> nat
    var slots: array<Option<Descr>>
    var numDescr: nat
    var tables: seq<seq<Descr>>

    /** The slots form a probing table without duplicates. */
    ghost predicate Intact()
      reads this, slots
    {
      1 <= slots.Length && Unique(slots[..]) && Reachable(slots[..], Home(hash, slots.Length))
    }

    /** The table is at most half full. */
    ghost predicate Sound()
      reads this, slots
    {
      Intact() && 2 * numDescr <= slots.Length && Load(slots[..]) <= numDescr
    }

    /** The table holds exactly the descriptors of the registered frametables. */
    ghost predicate Valid()
      reads this, slots
    {
      && Sound()
      && Distinct(Flatten(tables))
      && |Flatten(tables)| <= numDescr
      && forall d :: Holds(slots[..], d) <==> d in Flatten(tables)
    }

    constructor (hash: nat -> nat)
      ensures Valid() && fresh(slots) && tables == []
    {
      this.hash := hash;
      slots := new Option<Descr>[1](_ => None);
      numDescr := 0;
      tables := [];
      new;
      LoadEmpty(slots[..]);
    }

    /** The probe loop shared by lookup, insertion and deletion: it always stops. */
    method Probe(d: Descr) returns (at: nat)
      requires Intact() && HasFree(slots[..])
      ensures Probes(slots[..], Home(hash, slots.Length), d, at)
    {
      ghost var n, home := slots.Length, Home(hash, slots.Length);
      at := Home(hash, slots.Length)(d);
      ghost var free :| 0 <= free < n && slots[..][free].None?;
      while slots[at].Some? && slots[at] != Some(d)
        invariant at < n
        invariant forall q :: 0 <= q < n && Before(n, home(d), q, at) ==> slots[q].Some? && slots[q] != Some(d)
        decreases Dist(n, at, free)
      {
        assert forall q :: 0 <= q < n && Before(n, home(d), q, Next(n, at)) ==> q == at || Before(n, home(d), q, at);
        at := Next(slots.Length, at);
      }
    }

    /** Lookup by return address: finds a registered descriptor exactly when there is one. */
    method Find(retaddr: nat) returns (r: Option<Descr>)
      requires Valid()
      ensures r.Some? ==> r.value in Flatten(tables) && r.value.retaddr == retaddr
      ensures r.None? ==> forall d :: d in Flatten(tables) ==> d.retaddr != retaddr
    {
      ghost var n, home := slots.Length, Home(hash, slots.Length);
      var h: nat := hash(retaddr) % slots.Length;
      ghost var h0: nat := h;
      LoadBelowSizeHasFree(slots[..]);
      ghost var free :| 0 <= free < n && slots[..][free].None?;
      while slots[h].Some? && slots[h].value.retaddr != retaddr
        invariant h < n
        invariant forall q :: 0 <= q < n && Before(n, h0, q, h) ==> slots[q].Some? && slots[q].value.retaddr != retaddr
        decreases Dist(n, h, free)
      {
        assert forall q :: 0 <= q < n && Before(n, h0, q, Next(n, h)) ==> q == h || Before(n, h0, q, h);
        h := Next(slots.Length, h);
      }
      r := slots[h];
      if r.Some? {
        assert Holds(slots[..], r.value);
      } else {
        forall d | d in Flatten(tables) ensures d.retaddr != retaddr {
          var p :| 0 <= p < n && slots[..][p] == Some(d);
          assert d.retaddr == retaddr ==> home(d) == h0;
          assert !Before(n, home(d), h, p);
        }
      }
    }

    /** One step of fill_hashtable. */
    method Insert(d: Descr)
      requires Sound() && Load(slots[..]) < numDescr
      requires !Holds(slots[..], d)
      modifies slots
      ensures Sound() && Load(slots[..]) == old(Load(slots[..])) + 1
      ensures forall x :: Holds(slots[..], x) <==> old(Holds(slots[..], x)) || x == d
    {
      LoadBelowSizeHasFree(slots[..]);
      var at := Probe(d);
      ghost var home, before := Home(hash, slots.Length), slots[..];
      ProbeDecides(before, home, d, at);
      InsertAtProbe(before, home, d, at);
      LoadUpdate(before, at, Some(d));
      slots[at] := Some(d);
      assert slots[..] == before[at := Some(d)];
    }

    method FillHashtable(ds: seq<Descr>)
      requires Sound() && Load(slots[..]) + |ds| <= numDescr
      requires Distinct(ds) && forall d :: d in ds ==> !Holds(slots[..], d)
      modifies slots
      ensures Sound()
      ensures forall x :: Holds(slots[..], x) <==> old(Holds(slots[..], x)) || x in ds
    {
      var j := 0;
      while j < |ds|
        invariant 0 <= j <= |ds|
        invariant Sound() && Load(slots[..]) == old(Load(slots[..])) + j
        invariant forall x :: Holds(slots[..], x) <==> old(Holds(slots[..], x)) || x in ds[..j]
      {
        assert ds[j] in ds;
        assert ds[j] !in ds[..j];
        Insert(ds[j]);
        assert ds[..j + 1] == ds[..j] + [ds[j]];
        j := j + 1;
      }
      assert ds[..j] == ds;
    }

    /** init_frame_descriptors: the new tables are added; when the slots would be more than half
        full everything is rehashed into a table of twice the needed size or more. */
    method Register(newTables: seq<seq<Descr>>)
      requires Valid()
      requires Distinct(Flatten(newTables))
      requires forall d :: d in Flatten(newTables) ==> d !in Flatten(tables)
      modifies this, slots
      ensures Valid() && (slots == old(slots) || fresh(slots))
      ensures tables == newTables + old(tables)
      ensures forall d :: Holds(slots[..], d) <==> d in Flatten(newTables) || d in old(Flatten(tables))
    {
      var added := Flatten(newTables);
      FlattenConcat(newTables, tables);
      DistinctConcat(added, Flatten(tables));
      if slots.Length < (numDescr + |added|) * 2 {
        tables := newTables + tables;
        var all := Flatten(tables);
        numDescr := |all|;
        var size := 4;
        while size < 2 * numDescr
          invariant size >= 4
        {
          size := size * 2;
        }
        slots := new Option<Descr>[size](_ => None);
        LoadEmpty(slots[..]);
        FillHashtable(all);
      } else {
        numDescr := numDescr + |added|;
        FillHashtable(added);
        tables := newTables + tables;
      }
    }

    /** remove_entry: finds `d`, then shifts later entries of the run back over the hole until a
        free slot ends the run.  Any table with a free slot will do. */
    method RemoveEntry(d: Descr)
      requires Intact() && HasFree(slots[..]) && Holds(slots[..], d)
      modifies slots
      ensures Intact() && HasFree(slots[..]) && Load(slots[..]) == old(Load(slots[..])) - 1
      ensures forall x :: Holds(slots[..], x) <==> old(Holds(slots[..], x)) && x != d
    {
      var j := Probe(d);
      ghost var start, home := slots[..], Home(hash, slots.Length);
      ProbeDecides(start, home, d, j);
      OpenShift(start, home, j, d);
      slots[j] := None;
      assert slots[..] == start[j := None];
      ghost var free :| 0 <= free < |start| && start[free].None?;
      BackShift(start, d, free, j);
    }

    /** The two goto loops of remove_entry: `j` is the hole, `i` scans the run behind it. */
    method BackShift(ghost start: seq<Option<Descr>>, ghost d: Descr, ghost free: nat, hole: nat)
      requires slots.Length > 0
      requires Shifting(start, d, slots[..], Home(hash, slots.Length), hole, hole)
      requires free < slots.Length && free != hole && slots[free].None?
      modifies slots
      ensures |slots[..]| == |start| && Reachable(slots[..], Home(hash, slots.Length))
      ensures Unique(slots[..]) && Load(slots[..]) == Load(start) - 1
      ensures HasFree(slots[..]) && forall x :: Holds(slots[..], x) <==> Holds(start, x) && x != d
    {
      var i, j, home := hole, hole, Home(hash, slots.Length);
      while true
        invariant Shifting(start, d, slots[..], home, j, i)
        invariant free != i && free != j && slots[free].None?
        decreases Dist(slots.Length, i, free)
      {
        ghost var t, prev := slots[..], i;
        i := Next(slots.Length, i);
        if slots[i].None? {
          CloseHole(t, home, j, prev, i);
          return;
        }
        var r := home(slots[i].value);
        if MayStay(i, j, r) {
          SkipEntry(t, home, j, prev, i);
        } else {
          MoveShift(start, d, t, home, j, prev, i);
          slots[j] := slots[i];
          slots[i] := None;
          assert slots[..] == t[j := t[i]][i := None];
          j := i;
        }
      }
    }

    /** caml_unregister_frametable: exactly the descriptors of that table disappear. */
    method Unregister(k: nat)
      requires Valid() && k < |tables|
      modifies this, slots
      ensures Valid() && slots == old(slots)
      ensures tables == old(tables[..k] + tables[k + 1..])
      ensures forall d :: Holds(slots[..], d) <==> old(Holds(slots[..], d)) && d !in old(tables[k])
    {
      var ds := tables[k];
      ghost var rest := tables[..k] + tables[k + 1..];
      SplitAt(tables, k);
      var j := 0;
      while j < |ds|
        invariant 0 <= j <= |ds| && Sound() && slots == old(slots) && tables == old(tables) && numDescr == old(numDescr)
        invariant forall x :: Holds(slots[..], x) <==> x in Flatten(tables) && x !in ds[..j]
      {
        assert ds[j] in ds && ds[j] !in ds[..j];
        LoadBelowSizeHasFree(slots[..]);
        RemoveEntry(ds[j]);
        assert ds[..j + 1] == ds[..j] + [ds[j]];
        j := j + 1;
      }
      assert ds[..j] == ds;
      tables := tables[..k] + tables[k + 1..];
    }
  }

  /** The state of remove_entry between two iterations, relative to the table it started from. */
  ghost predicate Shifting(start: seq<Option<Descr>>, d: Descr, t: seq<Option<Descr>>, home: Descr -> nat, j: nat,
      i: nat)
    requires Homed(home, |t|)
  {
    && |t| == |start|
    && HoleInv(t, home, j, i) && (i == j || t[i].Some?)
    && Unique(t) && Load(t) == Load(start) - 1
    && forall x :: Holds(t, x) <==> Holds(start, x) && x != d
  }

  lemma OpenShift(start: seq<Option<Descr>>, home: Descr -> nat, j: nat, d: Descr)
    requires Homed(home, |start|) && Reachable(start, home) && Unique(start)
    requires j < |start| && start[j] == Some(d)
    ensures Shifting(start, d, start[j := None], home, j, j)
  {
    OpenHole(start, home, j);
    EmptyingRemoves(start, j, d);
    LoadUpdate(start, j, None);
  }

  lemma MoveShift(start: seq<Option<Descr>>, d: Descr, t: seq<Option<Descr>>, home: Descr -> nat, j: nat, i: nat,
      next: nat)
    requires Homed(home, |t|) && Shifting(start, d, t, home, j, i)
    requires next == Next(|t|, i) && next != j && t[next].Some?
    requires !MayStay(next, j, home(t[next].value))
    ensures Shifting(start, d, t[j := t[next]][next := None], home, next, next)
  {
    MoveEntry(t, home, j, i, next);
    MoveKeepsKeys(t, j, next);
    LoadUpdate(t, j, t[next]);
    LoadUpdate(t[j := t[next]], next, None);
  }

  lemma DistinctConcat<T>(a: seq<T>, b: seq<T>)
    requires Distinct(a) && Distinct(b) && forall x :: x in a ==> x !in b
    ensures Distinct(a + b)
  {
    assert forall i :: |a| <= i < |a + b| ==> (a + b)[i] in b;
  }

  /** The three parts of a duplicate-free sequence have no element in common. */
  lemma PartsDisjoint<T>(a: seq<T>, m: seq<T>, b: seq<T>)
    requires Distinct(a + m + b)
    ensures Distinct(m) && Distinct(a + b)
    ensures forall x :: x in a + b <==> x in a + m + b && x !in m
  {
    var f := a + m + b;
    assert forall i :: 0 <= i < |a| ==> f[i] == a[i];
    assert forall i :: 0 <= i < |m| ==> f[|a| + i] == m[i];
    assert forall i :: 0 <= i < |b| ==> f[|a| + |m| + i] == b[i];
  }

  /** Dropping one registered table from a duplicate-free list drops exactly its descriptors. */
  lemma SplitAt(tables: seq<seq<Descr>>, k: nat)
    requires k < |tables| && Distinct(Flatten(tables))
    ensures Distinct(tables[k]) && (forall d :: d in tables[k] ==> d in Flatten(tables))
    ensures var rest := tables[..k] + tables[k + 1..];
            && Distinct(Flatten(rest)) && |Flatten(rest)| <= |Flatten(tables)|
            && forall d :: d in Flatten(rest) <==> d in Flatten(tables) && d !in tables[k]
  {
    var a, m, b := Flatten(tables[..k]), tables[k], Flatten(tables[k + 1..]);
    assert tables == tables[..k] + tables[k..];
    FlattenConcat(tables[..k], tables[k..]);
    assert tables[k..][1..] == tables[k + 1..];
    assert Flatten(tables) == a + m + b;
    FlattenConcat(tables[..k], tables[k + 1..]);
    PartsDisjoint(a, m, b);
  }
}
