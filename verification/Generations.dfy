// The two collectors meet in the remembered set: what the write barrier keeps
// in every run is what a minor collection needs to start.

module Generations {
  import J = MajorHeap
  import E = Cycles
  import B = CycleSafety
  import R = CycleRuns
  import N = MinorHeap
  import P = Mopup

  /** Both models at one moment: the major blocks of `m` are kept blocks of `s`, a field holds a young
      pointer in `m` only where it is a scanned field that holds one in `s`, and `table` lists the
      remembered set. */
  ghost predicate SameMoment(s: J.State, keep: set<J.Addr>, m: N.State, table: seq<N.Slot>) {
    && (forall r :: r in m.major ==> r in keep && r in s.heap && |s.heap[r].fields| == |m.major[r].fields|)
    && (forall r: J.Addr, i: nat {:trigger N.IsSlot(m, N.Field(r, i))} :: N.IsSlot(m, N.Field(r, i)) && N.Get(m, N.Field(r, i)).Young? ==> HoldsYoung(s, r, i))
    && forall r: J.Addr, i: nat {:trigger (r, i) in s.refTable} :: (r, i) in s.refTable ==> N.Field(r, i) in table
  }

  ghost predicate HoldsYoung(s: J.State, r: J.Addr, i: nat) {
    r in s.heap && s.heap[r].scan && i < |s.heap[r].fields| && s.heap[r].fields[i].Young?
  }

  lemma KeptSlotsAreRemembered(s: J.State, keep: set<J.Addr>, m: N.State, table: seq<N.Slot>)
    requires J.Remembered(s, keep) && SameMoment(s, keep, m, table)
    ensures P.AllRemembered(m, table)
  {
    forall r: J.Addr, i: nat | N.IsSlot(m, N.Field(r, i)) && N.Get(m, N.Field(r, i)).Young? ensures N.Field(r, i) in table {
      assert HoldsYoung(s, r, i);
      assert (r, i) in s.refTable;
    }
  }

  /** After every run of the mutator and the major collector, a minor collection of what is reachable finds
      every major slot that holds a young pointer in the table. */
  lemma MinorCollectionMayStart(s: J.State, es: seq<E.Event>, t: J.State, m: N.State, table: seq<N.Slot>)
    requires R.Initial(s) && R.Run(s, es, t) && SameMoment(t, R.Live(t), m, table)
    ensures P.AllRemembered(m, table)
  {
    assert J.Inv(s, {});
    var keep := R.RunKeeps(s, {}, es, t);
    forall a | a in R.Live(t) ensures a in keep { B.ReachableKept(t, keep, a); }
    KeptSlotsAreRemembered(t, R.Live(t), m, table);
  }
}
