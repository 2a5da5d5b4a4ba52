// The marshaller's table from already emitted objects to their positions
// (extern.c): open addressing, growing when it becomes two thirds full.

module PositionTable {
  import opened Basics
  import opened Probing

  datatype Entry = Entry(obj: nat, pos: nat)

  const INIT_SIZE: nat := 256

  function Threshold(size: nat): nat {
    size * 2 / 3
  }

  /** Fibonacci hashing as extern.c does it: the high bits of the product, `size == 2^(64-shift)`. */
  const HASH_FACTOR: nat := 11400714819323198486
  const TWO64: nat := 0x1_0000_0000_0000_0000

  function FibonacciHash(v: nat, size: nat): (h: nat)
    ensures size > 0 ==> h < size
  {
    var low := (v * HASH_FACTOR) % TWO64;
    ShiftInRange(low, size);
    low * size / TWO64
  }

  lemma ShiftInRange(low: nat, size: nat)
    requires low < TWO64
    ensures size > 0 ==> low * size / TWO64 < size
  {
    if size > 0 {
      assert low * size < TWO64 * size by { MulLess(low, TWO64, size); }
      DivLess(low * size, size, TWO64);
    }
  }

  lemma MulLess(a: nat, b: nat, c: nat)
    requires a < b && c > 0
    ensures a * c < b * c
  {
  }

  lemma DivLess(x: nat, q: nat, d: nat)
    requires d > 0 && x < d * q
    ensures x / d < q
  {
  }

  function Keys(t: seq<Option<Entry>>): (r: seq<Option<nat>>)
    ensures |r| == |t|
    ensures forall i :: 0 <= i < |t| ==> r[i] == if t[i].Some? then Some(t[i].value.obj) else None
  {
    seq(|t|, i requires 0 <= i < |t| => if t[i].Some? then Some(t[i].value.obj) else None)
  }

  lemma KeysUpdate(t: seq<Option<Entry>>, i: nat, e: Entry)
    requires i < |t|
    ensures Keys(t[i := Some(e)]) == Keys(t)[i := Some(e.obj)]
  {
  }

  /** FibonacciHash, or any other hash function that yields slots of the table. */
  type Hash = (nat, nat) -> nat

  ghost predicate GoodHash(hash: Hash) {
    forall v, n :: n > 0 ==> hash(v, n) < n
  }

  lemma FibonacciIsGood()
    ensures GoodHash(FibonacciHash)
  {
    forall v: nat, n: nat | n > 0 ensures FibonacciHash(v, n) < n { }
  }

  ghost function Home(hash: Hash, size: nat): (h: nat -> nat)
    requires size > 0 && GoodHash(hash)
    ensures forall k :: h(k) < size
  {
    (k: nat) => hash(k, size)
  }

  /** A probing table without duplicates whose keys are exactly those of `m`. */
  ghost predicate KeyTable(hash: Hash, u: seq<Option<nat>>, m: map<nat, nat>) {
    && GoodHash(hash) && |u| > 0 && Unique(u) && Reachable(u, Home(hash, |u|)) && Load(u) == |m|
    && forall k :: k in m <==> Holds(u, k)
  }

  /** The slots hold exactly the pairs of `m`. */
  ghost predicate Represents(hash: Hash, t: seq<Option<Entry>>, m: map<nat, nat>) {
    KeyTable(hash, Keys(t), m) && forall i :: 0 <= i < |t| && t[i].Some? ==> PairOf(m, t[i].value)
  }

  ghost predicate PairOf(m: map<nat, nat>, e: Entry) {
    e.obj in m && m[e.obj] == e.pos
  }

  lemma RepresentsEmpty(hash: Hash, t: seq<Option<Entry>>)
    requires GoodHash(hash) && |t| > 0 && forall i :: 0 <= i < |t| ==> t[i].None?
    ensures Represents(hash, t, map[])
  {
    LoadEmpty(Keys(t));
  }

  lemma KeyTableInsert(hash: Hash, u: seq<Option<nat>>, m: map<nat, nat>, at: nat, k: nat, v: nat)
    requires KeyTable(hash, u, m) && Probes(u, Home(hash, |u|), k, at) && u[at].None?
    ensures KeyTable(hash, u[at := Some(k)], m[k := v]) && k !in m
  {
    ProbeDecides(u, Home(hash, |u|), k, at);
    InsertAtProbe(u, Home(hash, |u|), k, at);
    LoadUpdate(u, at, Some(k));
    assert m[k := v].Keys == m.Keys + {k};
  }

  lemma RepresentsInsert(hash: Hash, t: seq<Option<Entry>>, m: map<nat, nat>, at: nat, e: Entry)
    requires Represents(hash, t, m) && Probes(Keys(t), Home(hash, |t|), e.obj, at) && t[at].None?
    ensures Represents(hash, t[at := Some(e)], m[e.obj := e.pos]) && e.obj !in m
  {
    var u, m' := t[at := Some(e)], m[e.obj := e.pos];
    KeysUpdate(t, at, e);
    KeyTableInsert(hash, Keys(t), m, at, e.obj, e.pos);
    forall i | 0 <= i < |u| && u[i].Some? ensures PairOf(m', u[i].value) {
      if i != at { assert PairOf(m, t[i].value); }
    }
  }

  /** `m` holds exactly the entries of the first `i` slots. */
  ghost predicate Copied(t: seq<Option<Entry>>, all: map<nat, nat>, i: nat, m: map<nat, nat>) {
    && (forall k :: k in m ==> k in all && m[k] == all[k])
    && (forall j :: 0 <= j < i && j < |t| && t[j].Some? ==> t[j].value.obj in m)
    && forall j :: i <= j < |t| && t[j].Some? ==> t[j].value.obj !in m
  }

  lemma CopyNext(hash: Hash, t: seq<Option<Entry>>, all: map<nat, nat>, i: nat, m: map<nat, nat>)
    requires Represents(hash, t, all) && i < |t| && t[i].Some? && Copied(t, all, i, m)
    ensures Copied(t, all, i + 1, m[t[i].value.obj := t[i].value.pos])
  {
    var e := t[i].value;
    assert PairOf(all, e) && Keys(t)[i] == Some(e.obj);
    forall j | i < j < |t| && t[j].Some? ensures t[j].value.obj != e.obj {
      assert Keys(t)[j] == Some(t[j].value.obj);
    }
  }

  lemma CopiedAll(hash: Hash, t: seq<Option<Entry>>, all: map<nat, nat>, m: map<nat, nat>)
    requires Represents(hash, t, all) && Copied(t, all, |t|, m)
    ensures m == all
  {
    forall k | k in all ensures k in m {
      assert Holds(Keys(t), k);
      var p :| 0 <= p < |Keys(t)| && Keys(t)[p] == Some(k);
      assert t[p].value.obj in m;
    }
  }

  /** The probe loop: the slot of `k`, or the free slot where its probe path ends. */
  method Probe(a: array<Option<Entry>>, hash: Hash, k: nat) returns (h: nat)
    requires a.Length > 0 && GoodHash(hash) && HasFree(Keys(a[..]))
    ensures Probes(Keys(a[..]), Home(hash, a.Length), k, h)
  {
    ghost var t, n: nat, home := Keys(a[..]), a.Length, Home(hash, a.Length);
    h := hash(k, a.Length);
    ghost var free :| 0 <= free < n && t[free].None?;
    while a[h].Some? && a[h].value.obj != k
      invariant h < n
      invariant forall q :: 0 <= q < n && Before(n, home(k), q, h) ==> t[q].Some? && t[q] != Some(k)
      decreases Dist(n, h, free)
    {
      assert t[h] == Some(a[h].value.obj);
      assert forall q :: 0 <= q < n && Before(n, home(k), q, Next(n, h)) ==> q == h || Before(n, home(k), q, h);
      h := Next(a.Length, h);
    }
    assert t[h].Some? ==> t[h] == Some(k);
  }

  /** Adding an entry whose key is not in the table: the inner loop of the resizing code. */
  method Place(a: array<Option<Entry>>, hash: Hash, ghost m: map<nat, nat>, e: Entry)
    requires a.Length > 0 && Represents(hash, a[..], m) && |m| < a.Length && e.obj !in m
    modifies a
    ensures Represents(hash, a[..], m[e.obj := e.pos])
  {
    LoadBelowSizeHasFree(Keys(a[..]));
    var h := Probe(a, hash, e.obj);
    ghost var before := a[..];
    ProbeDecides(Keys(before), Home(hash, a.Length), e.obj, h);
    RepresentsInsert(hash, before, m, h, e);
    a[h] := Some(e);
    assert a[..] == before[h := Some(e)];
  }

  /** Every entry of the old table is inserted in the new one. */
  method Rehash(from: array<Option<Entry>>, to: array<Option<Entry>>, hash: Hash, ghost all: map<nat, nat>)
    requires from != to && from.Length < to.Length && Represents(hash, from[..], all) && Represents(hash, to[..], map[])
    modifies to
    ensures Represents(hash, to[..], all)
  {
    ghost var copied: map<nat, nat>, t := map[], from[..];
    var i := 0;
    while i < from.Length
      invariant 0 <= i <= from.Length && from[..] == t
      invariant Represents(hash, to[..], copied) && |copied| <= i
      invariant Copied(t, all, i, copied)
    {
      assert from[i] == t[i];
      if from[i].Some? {
        CopyNext(hash, t, all, i, copied);
        Place(to, hash, copied, from[i].value);
        copied := copied[t[i].value.obj := t[i].value.pos];
      }
      i := i + 1;
    }
    CopiedAll(hash, t, all, copied);
  }

  /** Slot `h` is where extern_record_location may put `obj`. */
  ghost predicate FreeFor(hash: Hash, t: seq<Option<Entry>>, obj: nat, h: nat) {
    && GoodHash(hash) && |t| > 0 && h < |t| && t[h].None?
    && Probes(Keys(t), Home(hash, |t|), obj, h)
  }

  class Positions {
    const hash: Hash
    var slots: array<Option<Entry>>
    var threshold: nat
    ghost var contents: map<nat, nat>

    ghost predicate Valid()
      reads this, slots
    {
      && slots.Length >= INIT_SIZE && threshold == Threshold(slots.Length)
      && Represents(hash, slots[..], contents) && |contents| < threshold
    }

    constructor (hash: Hash)
      requires GoodHash(hash)
      ensures Valid() && fresh(slots) && contents == map[] && this.hash == hash
    {
      this.hash := hash;
      slots := new Option<Entry>[INIT_SIZE](_ => None);
      threshold := Threshold(INIT_SIZE);
      contents := map[];
      new;
      RepresentsEmpty(hash, slots[..]);
    }

    /** extern_lookup_position: the position of `obj`, or the slot where it can be recorded. */
    method Lookup(obj: nat) returns (found: bool, pos: nat, h: nat)
      requires Valid()
      ensures found <==> obj in contents
      ensures found ==> pos == contents[obj]
      ensures !found ==> FreeFor(hash, slots[..], obj, h)
    {
      LoadBelowSizeHasFree(Keys(slots[..]));
      h := Probe(slots, hash, obj);
      ProbeDecides(Keys(slots[..]), Home(hash, slots.Length), obj, h);
      found := slots[h].Some?;
      pos := if found then slots[h].value.pos else 0;
    }

    /** extern_record_location at the slot found by Lookup; `pos` is obj_counter, the number of
        objects recorded so far.  The table grows when the counter reaches the threshold. */
    method Record(obj: nat, h: nat, pos: nat)
      requires Valid() && FreeFor(hash, slots[..], obj, h)
      requires pos == |contents|
      modifies this, slots
      ensures Valid() && (slots == old(slots) || fresh(slots))
      ensures contents == old(contents)[obj := pos] && obj !in old(contents)
    {
      ghost var before := slots[..];
      RepresentsInsert(hash, before, contents, h, Entry(obj, pos));
      slots[h] := Some(Entry(obj, pos));
      contents := contents[obj := pos];
      assert slots[..] == before[h := Some(Entry(obj, pos))];
      if pos + 1 >= threshold {
        Resize();
      }
    }

    /** extern_resize_position_table: every entry is rehashed into a larger table. */
    method Resize()
      requires slots.Length >= INIT_SIZE && threshold == Threshold(slots.Length)
      requires Represents(hash, slots[..], contents) && |contents| <= threshold
      modifies this
      ensures Valid() && contents == old(contents) && fresh(slots)
    {
      var size := if slots.Length < 1000000 then 8 * slots.Length else 2 * slots.Length;
      var bigger := new Option<Entry>[size](_ => None);
      RepresentsEmpty(hash, bigger[..]);
      Rehash(slots, bigger, hash, contents);
      slots := bigger;
      threshold := Threshold(size);
    }
  }
}
