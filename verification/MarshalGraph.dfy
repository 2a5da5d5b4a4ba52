// Writing a value graph as a sequence of items and rebuilding it: the reader's
// object numbering stays in step with the writer's, and the graph it builds is
// the same up to addresses.

module MarshalGraph {
  import opened Basics
  import opened MarshalCodec

  type Addr = nat

  datatype Value = Int(n: int) | Ptr(a: Addr)

  /** A heap object; a block without fields is an atom. */
  datatype Object =
    | StrObj(bytes: seq<byte>)
    | DblObj(bits: seq<byte>)
    | DblArrayObj(doubles: nat, data: seq<byte>)
    | Blk(tag: nat, fields: seq<Value>)

  type Heap = map<Addr, Object>

  /** Positions of the objects emitted so far: what the hash table of extern.c stores. */
  type Table = map<Addr, nat>

  const MAX_PLAIN_TAG: nat := 246

  ghost predicate GoodValue(h: Heap, v: Value) {
    match v
    case Int(n) => -TWO62 <= n < TWO62
    case Ptr(a) => a in h
  }

  ghost predicate GoodObject(h: Heap, o: Object) {
    match o
    case StrObj(b) => Valid(Str(b))
    case DblObj(b) => Valid(Dbl(b))
    case DblArrayObj(n, data) => Valid(DblArray(n, data))
    case Blk(tag, fields) =>
      && (if fields == [] then tag < 256 else tag <= MAX_PLAIN_TAG) && |fields| <= MAX_WOSIZE
      && forall v :: v in fields ==> GoodValue(h, v)
  }

  /** Strings, floats, float arrays, plain blocks and atoms whose pointers stay inside the heap. */
  ghost predicate GoodHeap(h: Heap) {
    |h| < TWO62 && forall a :: a in h ==> GoodObject(h, h[a])
  }

  predicate IsAtom(o: Object) {
    o.Blk? && o.fields == []
  }

  // ---------------------------------------------------------------- the writer

  predicate IsNew(h: Heap, t: Table, v: Value) {
    v.Ptr? && v.a in h && !IsAtom(h[v.a]) && v.a !in t
  }

  /** The item extern_rec emits for value `v`. */
  function ItemOf(h: Heap, t: Table, v: Value): Item {
    match v
    case Int(n) => Num(n)
    case Ptr(a) =>
      if a !in h then Num(0)
      else if IsAtom(h[a]) then Atom(h[a].tag)
      else if a in t then Shared(if t[a] <= |t| then |t| - t[a] else 0)
      else ItemOfObject(h[a])
  }

  /** The contents of a new object; for a block, the header. */
  function ItemOfObject(o: Object): Item {
    match o
    case StrObj(b) => Str(b)
    case DblObj(b) => Dbl(b)
    case DblArrayObj(n, data) => DblArray(n, data)
    case Blk(tag, fields) => Head(tag, |fields|)
  }

  function Record(h: Heap, t: Table, v: Value): Table {
    if IsNew(h, t, v) then t[v.a := |t|] else t
  }

  /** The values still to be written after `v`: the fields of a new block come first. */
  function Expand(h: Heap, t: Table, v: Value, rest: seq<Value>): seq<Value> {
    if IsNew(h, t, v) && h[v.a].Blk? then h[v.a].fields + rest else rest
  }

  lemma Shrinks(h: Heap, t: Table, v: Value)
    requires IsNew(h, t, v)
    ensures h.Keys - Record(h, t, v).Keys < h.Keys - t.Keys
  {
    assert v.a in h.Keys - t.Keys && v.a !in h.Keys - Record(h, t, v).Keys;
  }

  /** Everything extern_rec emits for a list of pending values, and the table it ends with. */
  ghost function Items(h: Heap, t: Table, pending: seq<Value>): (seq<Item>, Table)
    decreases h.Keys - t.Keys, |pending|
  {
    if pending == [] then ([], t)
    else
      var v := pending[0];
      assert IsNew(h, t, v) ==> h.Keys - Record(h, t, v).Keys < h.Keys - t.Keys by {
        if IsNew(h, t, v) { Shrinks(h, t, v); }
      }
      var (rest, end) := Items(h, Record(h, t, v), Expand(h, t, v, pending[1..]));
      ([ItemOf(h, t, v)] + rest, end)
  }

  // ---------------------------------------------------------------- the reader

  datatype DValue = DInt(n: int) | DPtr(a: Addr) | DAtom(atag: nat)

  datatype DObject =
    | DStr(bytes: seq<byte>)
    | DDbl(bits: seq<byte>)
    | DDblArray(doubles: nat, data: seq<byte>)
    | DBlk(tag: nat, fields: seq<DValue>)

  datatype Slot = Root | Fld(a: Addr, i: nat)

  /** intern_dest, the objects written so far, intern_obj_table and the variable for the result. */
  datatype Reader = Reader(dest: Addr, mem: map<Addr, DObject>, objs: seq<Addr>, root: DValue)

  /** Words of the destination area taken by an item: header and contents. */
  function Words(i: Item): nat {
    match i
    case Num(_) => 0
    case Shared(_) => 0
    case Atom(_) => 0
    case Str(b) => 1 + (|b| + 8) / 8
    case Dbl(_) => 2
    case DblArray(n, _) => 1 + n
    case Head(_, size) => 1 + size
  }

  predicate Allocates(i: Item) {
    i.Str? || i.Dbl? || i.DblArray? || i.Head?
  }

  function Blank(n: nat): (r: seq<DValue>)
    ensures |r| == n
  {
    seq(n, _ => DInt(0))
  }

  function NewObject(i: Item): DObject
    requires Allocates(i)
  {
    match i
    case Str(b) => DStr(b)
    case Dbl(b) => DDbl(b)
    case DblArray(n, data) => DDblArray(n, data)
    case Head(tag, size) => DBlk(tag, Blank(size))
  }

  predicate IsSlot(r: Reader, s: Slot) {
    s.Fld? ==> s.a in r.mem && r.mem[s.a].DBlk? && s.i < |r.mem[s.a].fields|
  }

  function Get(r: Reader, s: Slot): DValue
    requires IsSlot(r, s)
  {
    match s
    case Root => r.root
    case Fld(a, i) => r.mem[a].fields[i]
  }

  function Set(r: Reader, s: Slot, w: DValue): Reader
    requires IsSlot(r, s)
  {
    match s
    case Root => r.(root := w)
    case Fld(a, i) => r.(mem := r.mem[a := r.mem[a].(fields := r.mem[a].fields[i := w])])
  }

  /** The value an item denotes; an object gets the address where it is being built. */
  function Denotes(r: Reader, i: Item): DValue {
    match i
    case Num(n) => DInt(n)
    case Atom(t) => DAtom(t)
    case Shared(d) => if 0 < d <= |r.objs| then DPtr(r.objs[|r.objs| - d]) else DInt(0)
    case Str(_) => DPtr(r.dest)
    case Dbl(_) => DPtr(r.dest)
    case DblArray(_, _) => DPtr(r.dest)
    case Head(_, _) => DPtr(r.dest)
  }

  function Allocate(r: Reader, i: Item): Reader {
    if Allocates(i) then r.(dest := r.dest + Words(i), mem := r.mem[r.dest := NewObject(i)], objs := r.objs + [r.dest]) else r
  }

  function FieldSlots(r: Reader, i: Item): seq<Slot> {
    if i.Head? then seq(i.size, k requires 0 <= k < i.size => Fld(r.dest, k)) else []
  }

  /** One turn of the loop of intern_rec: read an item into the first pending slot. */
  function ReadItem(r: Reader, i: Item, s: Slot): Reader
    requires IsSlot(r, s)
  {
    var t := Allocate(r, i);
    if IsSlot(t, s) then Set(t, s, Denotes(r, i)) else t
  }

  ghost function ReadAll(r: Reader, items: seq<Item>, pending: seq<Slot>): Reader
    decreases |items|
  {
    if items == [] || pending == [] || !IsSlot(r, pending[0]) then r
    else ReadAll(ReadItem(r, items[0], pending[0]), items[1..], FieldSlots(r, items[0]) + pending[1..])
  }

  // ---------------------------------------------------------------- correspondence

  /** `w` is the copy of `v`: same number, same atom, or the object with the same position. */
  ghost predicate Copy(h: Heap, t: Table, r: Reader, v: Value, w: DValue) {
    match v
    case Int(n) => w == DInt(n)
    case Ptr(a) =>
      a in h && if IsAtom(h[a]) then w == DAtom(h[a].tag)
                else a in t && t[a] < |r.objs| && w == DPtr(r.objs[t[a]])
  }

  /** Positions number the objects in the order in which the reader builds them. */
  ghost predicate Numbered(h: Heap, t: Table, r: Reader) {
    && t.Keys <= h.Keys && |r.objs| == |t|
    && (forall a :: a in t ==> t[a] < |t| && !IsAtom(h[a]))
    && (forall a, b :: a in t && b in t && t[a] == t[b] ==> a == b)
    && (forall i, j :: 0 <= i < j < |r.objs| ==> r.objs[i] < r.objs[j])
    && (forall i :: 0 <= i < |r.objs| ==> r.objs[i] in r.mem)
    && forall x :: x in r.mem ==> x < r.dest
  }

  /** The object built for `o`, apart from fields that are still pending. */
  ghost predicate Built(h: Heap, t: Table, r: Reader, a: Addr, pending: seq<Slot>)
    requires a in h && a in t && t[a] < |r.objs| && r.objs[t[a]] in r.mem
  {
    match h[a]
    case StrObj(b) => r.mem[r.objs[t[a]]] == DStr(b)
    case DblObj(b) => r.mem[r.objs[t[a]]] == DDbl(b)
    case DblArrayObj(n, data) => r.mem[r.objs[t[a]]] == DDblArray(n, data)
    case Blk(tag, fields) =>
      var o := r.mem[r.objs[t[a]]];
      && o.DBlk? && o.tag == tag && |o.fields| == |fields|
      && forall i :: 0 <= i < |fields| ==> Fld(r.objs[t[a]], i) in pending || Copy(h, t, r, fields[i], o.fields[i])
  }

  /** Value `v` is the source of slot `s`. */
  ghost predicate Source(h: Heap, t: Table, r: Reader, v0: Value, v: Value, s: Slot) {
    match s
    case Root => v == v0
    case Fld(x, i) => exists a :: SourceAt(h, t, r, v, x, i, a)
  }

  ghost predicate SourceAt(h: Heap, t: Table, r: Reader, v: Value, x: Addr, i: nat, a: Addr) {
    a in t && a in h && t[a] < |r.objs| && r.objs[t[a]] == x && h[a].Blk? && i < |h[a].fields| && h[a].fields[i] == v
  }

  /** The writer with values `wp` still to write and the reader with slots `rp` still to fill are
      in step. */
  ghost predicate InStep(h: Heap, t: Table, wp: seq<Value>, r: Reader, rp: seq<Slot>, v0: Value) {
    && Numbered(h, t, r) && AllBuilt(h, t, r, rp) && AllSourced(h, t, wp, r, rp, v0)
    && (Root in rp || Copy(h, t, r, v0, r.root))
  }

  ghost predicate AllBuilt(h: Heap, t: Table, r: Reader, rp: seq<Slot>)
    requires Numbered(h, t, r)
  {
    forall a :: a in t ==> Built(h, t, r, a, rp)
  }

  ghost predicate AllSourced(h: Heap, t: Table, wp: seq<Value>, r: Reader, rp: seq<Slot>, v0: Value) {
    |wp| == |rp| && forall k :: 0 <= k < |rp| ==> Source(h, t, r, v0, wp[k], rp[k]) && GoodValue(h, wp[k])
  }

  // ---------------------------------------------------------------- one step

  lemma CopyExtends(h: Heap, t: Table, r: Reader, t': Table, r': Reader, v: Value, w: DValue)
    requires Copy(h, t, r, v, w)
    requires Grew(t, r, t', r')
    ensures Copy(h, t', r', v, w)
  {
  }

  lemma NewItem(h: Heap, t: Table, r: Reader, v: Value)
    requires GoodHeap(h) && IsNew(h, t, v)
    ensures var i := ItemOf(h, t, v); Valid(i) && Allocates(i) && (i.Head? <==> h[v.a].Blk?) && (i.Head? ==> i.size == |h[v.a].fields|)
  {
    assert GoodObject(h, h[v.a]);
  }

  lemma AllocateNumbered(h: Heap, t: Table, r: Reader, v: Value)
    requires GoodHeap(h) && Numbered(h, t, r) && IsNew(h, t, v)
    ensures Numbered(h, Record(h, t, v), Allocate(r, ItemOf(h, t, v)))
  {
    var i := ItemOf(h, t, v);
    NewItem(h, t, r, v);
    NumberedSnoc(h, t, r, v.a, NewObject(i), Words(i));
  }

  lemma NumberedSnoc(h: Heap, t: Table, r: Reader, a: Addr, o: DObject, words: nat)
    requires Numbered(h, t, r) && a in h && a !in t && !IsAtom(h[a]) && words > 0
    ensures Numbered(h, t[a := |t|], r.(dest := r.dest + words, mem := r.mem[r.dest := o], objs := r.objs + [r.dest]))
  {
    var t' := t[a := |t|];
    assert |t'| == |t| + 1;
    assert forall x :: x in r.objs ==> x < r.dest;
  }

  /** The reader only grew: earlier positions keep their objects. */
  ghost predicate Grew(t: Table, r: Reader, t': Table, r': Reader) {
    && (forall b :: b in t ==> b in t' && t'[b] == t[b])
    && |r.objs| <= |r'.objs| && forall k :: 0 <= k < |r.objs| ==> r'.objs[k] == r.objs[k]
  }

  lemma AllocateBuilt(h: Heap, t: Table, r: Reader, rp: seq<Slot>, v: Value)
    requires GoodHeap(h) && Numbered(h, t, r) && AllBuilt(h, t, r, rp) && IsNew(h, t, v)
    ensures var i := ItemOf(h, t, v); Numbered(h, Record(h, t, v), Allocate(r, i))
    ensures var i := ItemOf(h, t, v); AllBuilt(h, Record(h, t, v), Allocate(r, i), FieldSlots(r, i) + rp)
  {
    var i := ItemOf(h, t, v);
    var t', r', rp' := Record(h, t, v), Allocate(r, i), FieldSlots(r, i) + rp;
    NewItem(h, t, r, v);
    AllocateNumbered(h, t, r, v);
    assert r'.objs[t'[v.a]] == r.dest;
    forall a | a in t' ensures Built(h, t', r', a, rp') {
      if a == v.a {
        assert forall k :: 0 <= k < |FieldSlots(r, i)| ==> rp'[k] == Fld(r.dest, k);
      } else {
        assert r.objs[t[a]] in r.mem;
        BuiltExtends(h, t, r, t', r', a, rp, rp');
      }
    }
  }

  lemma AllocateSourced(h: Heap, t: Table, wp: seq<Value>, r: Reader, rp: seq<Slot>, v0: Value, v: Value)
    requires GoodHeap(h) && |r.objs| == |t| && AllSourced(h, t, wp, r, rp, v0) && IsNew(h, t, v)
    ensures var i := ItemOf(h, t, v);
            AllSourced(h, Record(h, t, v), Expand(h, t, v, wp), Allocate(r, i), FieldSlots(r, i) + rp, v0)
  {
    var i := ItemOf(h, t, v);
    var t', r', rp', wp' := Record(h, t, v), Allocate(r, i), FieldSlots(r, i) + rp, Expand(h, t, v, wp);
    NewItem(h, t, r, v);
    assert GoodObject(h, h[v.a]);
    assert Grew(t, r, t', r');
    forall k | 0 <= k < |rp'| ensures Source(h, t', r', v0, wp'[k], rp'[k]) && GoodValue(h, wp'[k]) {
      var n := |FieldSlots(r, i)|;
      if k < n {
        assert wp'[k] == h[v.a].fields[k] && SourceAt(h, t', r', wp'[k], r.dest, k, v.a);
      } else {
        assert wp'[k] == wp[k - n] && rp'[k] == rp[k - n];
        SourceExtends(h, t, r, t', r', v0, wp[k - n], rp[k - n]);
      }
    }
  }

  /** Emitting a new object and starting to build it keeps writer and reader in step. */
  lemma AllocateStep(h: Heap, t: Table, wp: seq<Value>, r: Reader, rp: seq<Slot>, v0: Value, v: Value)
    requires GoodHeap(h) && InStep(h, t, wp, r, rp, v0) && IsNew(h, t, v)
    ensures var i := ItemOf(h, t, v);
            InStep(h, Record(h, t, v), Expand(h, t, v, wp), Allocate(r, i), FieldSlots(r, i) + rp, v0)
  {
    var i := ItemOf(h, t, v);
    AllocateBuilt(h, t, r, rp, v);
    AllocateSourced(h, t, wp, r, rp, v0, v);
    if Root !in rp { CopyExtends(h, t, r, Record(h, t, v), Allocate(r, i), v0, r.root); }
    else { assert Root in FieldSlots(r, i) + rp; }
  }

  lemma BuiltExtends(h: Heap, t: Table, r: Reader, t': Table, r': Reader, a: Addr, rp: seq<Slot>, rp': seq<Slot>)
    requires a in h && a in t && t[a] < |r.objs| && r.objs[t[a]] in r.mem && Built(h, t, r, a, rp)
    requires Grew(t, r, t', r')
    requires r.objs[t[a]] in r'.mem && r'.mem[r.objs[t[a]]] == r.mem[r.objs[t[a]]]
    requires forall s :: s in rp ==> s in rp'
    ensures Built(h, t', r', a, rp')
  {
    if h[a].Blk? {
      var o := r.mem[r.objs[t[a]]];
      forall i | 0 <= i < |h[a].fields| && Fld(r.objs[t[a]], i) !in rp'
        ensures Copy(h, t', r', h[a].fields[i], o.fields[i])
      {
        CopyExtends(h, t, r, t', r', h[a].fields[i], o.fields[i]);
      }
    }
  }

  lemma SourceExtends(h: Heap, t: Table, r: Reader, t': Table, r': Reader, v0: Value, v: Value, s: Slot)
    requires Source(h, t, r, v0, v, s)
    requires Grew(t, r, t', r')
    ensures Source(h, t', r', v0, v, s)
  {
    if s.Fld? {
      var a :| SourceAt(h, t, r, v, s.a, s.i, a);
      assert SourceAt(h, t', r', v, s.a, s.i, a);
    }
  }

  /** A pending slot is a slot of the object being built for its source. */
  lemma SourceIsSlot(h: Heap, t: Table, r: Reader, v0: Value, v: Value, s: Slot, rp: seq<Slot>)
    requires Numbered(h, t, r) && Source(h, t, r, v0, v, s) && AllBuilt(h, t, r, rp)
    ensures IsSlot(r, s)
  {
    if s.Fld? {
      var a :| SourceAt(h, t, r, v, s.a, s.i, a);
      assert Built(h, t, r, a, rp);
    }
  }

  lemma RemoveOne<T>(a: seq<T>, s: T, b: seq<T>)
    ensures forall x :: x in a + [s] + b && x != s ==> x in a + b
    ensures forall k :: 0 <= k < |a + b| ==> (a + b)[k] == (a + [s] + b)[if k < |a| then k else k + 1]
  {
    forall x | x in a + [s] + b && x != s ensures x in a + b {
      var k :| 0 <= k < |a + [s] + b| && (a + [s] + b)[k] == x;
      assert x == if k < |a| then (a + b)[k] else (a + b)[k - 1];
    }
  }

  lemma FillSourced(h: Heap, t: Table, wa: seq<Value>, wb: seq<Value>, r: Reader, ra: seq<Slot>, rb: seq<Slot>,
      v0: Value, v: Value, s: Slot, w: DValue)
    requires AllSourced(h, t, wa + [v] + wb, r, ra + [s] + rb, v0) && |wa| == |ra| && IsSlot(r, s)
    ensures AllSourced(h, t, wa + wb, Set(r, s, w), ra + rb, v0) && Source(h, t, r, v0, v, s)
  {
    var r', rp, rp', wp, wp' := Set(r, s, w), ra + [s] + rb, ra + rb, wa + [v] + wb, wa + wb;
    assert wp[|wa|] == v && rp[|ra|] == s;
    RemoveOne(wa, v, wb);
    RemoveOne(ra, s, rb);
    forall k | 0 <= k < |rp'| ensures Source(h, t, r', v0, wp'[k], rp'[k]) && GoodValue(h, wp'[k]) {
      var j := if k < |ra| then k else k + 1;
      SourceExtends(h, t, r, t, r', v0, wp[j], rp[j]);
    }
  }

  /** Filling a pending slot with the copy of its source. */
  lemma FillStep(h: Heap, t: Table, wa: seq<Value>, wb: seq<Value>, r: Reader, ra: seq<Slot>, rb: seq<Slot>,
      v0: Value, v: Value, s: Slot, w: DValue)
    requires InStep(h, t, wa + [v] + wb, r, ra + [s] + rb, v0) && |wa| == |ra| && IsSlot(r, s)
    requires Copy(h, t, r, v, w)
    ensures InStep(h, t, wa + wb, Set(r, s, w), ra + rb, v0)
  {
    var r', rp, rp' := Set(r, s, w), ra + [s] + rb, ra + rb;
    FillSourced(h, t, wa, wb, r, ra, rb, v0, v, s, w);
    RemoveOne(ra, s, rb);
    SetNumbered(h, t, r, s, w);
    forall a | a in t ensures Built(h, t, r', a, rp') {
      assert Built(h, t, r, a, rp);
      FillBuilt(h, t, r, v, s, w, a, rp, rp');
    }
    if s != Root && Root !in rp' { CopyExtends(h, t, r, t, r', v0, r.root); }
  }

  lemma SetNumbered(h: Heap, t: Table, r: Reader, s: Slot, w: DValue)
    requires Numbered(h, t, r) && IsSlot(r, s)
    ensures Numbered(h, t, Set(r, s, w))
  {
  }

  lemma FillBuilt(h: Heap, t: Table, r: Reader, v: Value, s: Slot, w: DValue, a: Addr, rp: seq<Slot>, rp': seq<Slot>)
    requires Numbered(h, t, r) && a in t && Built(h, t, r, a, rp) && IsSlot(r, s) && Copy(h, t, r, v, w)
    requires s.Fld? ==> exists b :: SourceAt(h, t, r, v, s.a, s.i, b)
    requires forall x :: x in rp && x != s ==> x in rp'
    ensures Built(h, t, Set(r, s, w), a, rp')
  {
    var r', x := Set(r, s, w), r.objs[t[a]];
    if s.Fld? && s.a == x {
      var b :| SourceAt(h, t, r, v, s.a, s.i, b);
      assert t[a] == t[b];
      forall i | 0 <= i < |h[a].fields| && Fld(x, i) !in rp' ensures Copy(h, t, r', h[a].fields[i], r'.mem[x].fields[i]) {
        if i != s.i { assert Fld(x, i) != s; }
      }
    } else if h[a].Blk? {
      forall i | 0 <= i < |h[a].fields| && Fld(x, i) !in rp' ensures Copy(h, t, r', h[a].fields[i], r'.mem[x].fields[i]) {
        assert Fld(x, i) != s;
      }
    }
  }

  /** What an item denotes for the reader is the copy of what it was emitted for. */
  lemma DenotesCopy(h: Heap, t: Table, r: Reader, v: Value)
    requires GoodHeap(h) && Numbered(h, t, r) && GoodValue(h, v)
    ensures var i := ItemOf(h, t, v); Valid(i) && Copy(h, Record(h, t, v), Allocate(r, i), v, Denotes(r, i))
    ensures !IsNew(h, t, v) ==> !Allocates(ItemOf(h, t, v))
  {
    if v.Ptr? {
      assert GoodObject(h, h[v.a]);
      if v.a in t { TableBounded(h, t); }
    }
  }

  lemma TableBounded(h: Heap, t: Table)
    requires t.Keys <= h.Keys
    ensures |t| <= |h|
  {
    SubsetSize(t.Keys, h.Keys);
  }

  lemma {:induction false} SubsetSize(a: set<Addr>, b: set<Addr>)
    requires a <= b
    ensures |a| <= |b|
  {
    if a != {} {
      var x :| x in a;
      SubsetSize(a - {x}, b - {x});
    }
  }

  lemma SplitHead<T>(a: seq<T>, b: seq<T>)
    requires b != []
    ensures a + b == a + [b[0]] + b[1..]
  {
  }

  /** The first half of a turn: the object, if the item is a new one, is recorded and allocated. */
  lemma RecordStep(h: Heap, t: Table, wp: seq<Value>, r: Reader, rp: seq<Slot>, v0: Value, v: Value)
    requires GoodHeap(h) && InStep(h, t, wp, r, rp, v0) && GoodValue(h, v)
    ensures var i := ItemOf(h, t, v);
            && InStep(h, Record(h, t, v), Expand(h, t, v, wp), Allocate(r, i), FieldSlots(r, i) + rp, v0)
            && |Expand(h, t, v, [])| == |FieldSlots(r, i)|
  {
    DenotesCopy(h, t, r, v);
    if IsNew(h, t, v) {
      NewItem(h, t, r, v);
      AllocateStep(h, t, wp, r, rp, v0, v);
    } else {
      assert [] + rp == rp;
    }
  }

  /** One turn of both loops keeps writer and reader in step. */
  lemma StepKeeps(h: Heap, t: Table, wp: seq<Value>, r: Reader, rp: seq<Slot>, v0: Value)
    requires GoodHeap(h) && InStep(h, t, wp, r, rp, v0) && wp != []
    ensures IsSlot(r, rp[0]) && Valid(ItemOf(h, t, wp[0]))
    ensures var i := ItemOf(h, t, wp[0]);
            InStep(h, Record(h, t, wp[0]), Expand(h, t, wp[0], wp[1..]), ReadItem(r, i, rp[0]), FieldSlots(r, i) + rp[1..], v0)
  {
    var v, s := wp[0], rp[0];
    var i := ItemOf(h, t, v);
    var fs, ws := FieldSlots(r, i), Expand(h, t, v, []);
    SourceIsSlot(h, t, r, v0, v, s, rp);
    DenotesCopy(h, t, r, v);
    RecordStep(h, t, wp, r, rp, v0, v);
    ExpandFirst(h, t, v, wp);
    SplitHead(fs, rp);
    SlotStays(r, i, s);
    FillStep(h, Record(h, t, v), ws, wp[1..], Allocate(r, i), fs, rp[1..], v0, v, s, Denotes(r, i));
  }

  lemma ExpandFirst(h: Heap, t: Table, v: Value, wp: seq<Value>)
    requires wp != [] && wp[0] == v
    ensures var ws := Expand(h, t, v, []); Expand(h, t, v, wp) == ws + [v] + wp[1..] && Expand(h, t, v, wp[1..]) == ws + wp[1..]
  {
    assert wp == [v] + wp[1..];
  }

  lemma SlotStays(r: Reader, i: Item, s: Slot)
    requires IsSlot(r, s) && forall x :: x in r.mem ==> x < r.dest
    ensures IsSlot(Allocate(r, i), s)
  {
  }

  // ---------------------------------------------------------------- the whole message

  /** Words and objects taken by a sequence of items. */
  ghost function TotalWords(items: seq<Item>): nat {
    if items == [] then 0 else Words(items[0]) + TotalWords(items[1..])
  }

  ghost function TotalObjects(items: seq<Item>): nat {
    if items == [] then 0 else (if Allocates(items[0]) then 1 else 0) + TotalObjects(items[1..])
  }

  /** The reader started with the first pending value ends in step, with nothing pending; the sizes
      recorded by the writer are exactly what the reader uses. */
  lemma {:induction false} Lockstep(h: Heap, t: Table, wp: seq<Value>, r: Reader, rp: seq<Slot>, v0: Value)
    requires GoodHeap(h) && InStep(h, t, wp, r, rp, v0)
    ensures var (items, end) := Items(h, t, wp); var r' := ReadAll(r, items, rp);
            && InStep(h, end, [], r', [], v0)
            && (forall k :: 0 <= k < |items| ==> Valid(items[k]))
            && r'.dest == r.dest + TotalWords(items)
            && |r'.objs| == |r.objs| + TotalObjects(items)
    decreases h.Keys - t.Keys, |wp|
  {
    if wp != [] {
      var v := wp[0];
      var i := ItemOf(h, t, v);
      var r1, rp1 := ReadItem(r, i, rp[0]), FieldSlots(r, i) + rp[1..];
      StepKeeps(h, t, wp, r, rp, v0);
      SlotStays(r, i, rp[0]);
      if IsNew(h, t, v) { Shrinks(h, t, v); }
      Lockstep(h, Record(h, t, v), Expand(h, t, v, wp[1..]), r1, rp1, v0);
      var (rest, end) := Items(h, Record(h, t, v), Expand(h, t, v, wp[1..]));
      ItemsCons(h, t, wp);
      ReadCons(r, i, rest, rp);
    } else {
      assert rp == [];
    }
  }

  lemma ItemsCons(h: Heap, t: Table, wp: seq<Value>)
    requires wp != []
    ensures var v := wp[0]; var (rest, end) := Items(h, Record(h, t, v), Expand(h, t, v, wp[1..]));
            Items(h, t, wp) == ([ItemOf(h, t, v)] + rest, end)
  {
  }

  lemma ReadCons(r: Reader, i: Item, rest: seq<Item>, rp: seq<Slot>)
    requires rp != [] && IsSlot(r, rp[0]) && IsSlot(Allocate(r, i), rp[0])
    ensures ReadAll(r, [i] + rest, rp) == ReadAll(ReadItem(r, i, rp[0]), rest, FieldSlots(r, i) + rp[1..])
    ensures TotalWords([i] + rest) == Words(i) + TotalWords(rest)
    ensures TotalObjects([i] + rest) == (if Allocates(i) then 1 else 0) + TotalObjects(rest)
    ensures ReadItem(r, i, rp[0]).dest == r.dest + Words(i)
    ensures |ReadItem(r, i, rp[0]).objs| == |r.objs| + if Allocates(i) then 1 else 0
  {
    assert ([i] + rest)[1..] == rest;
  }

  /** Object `x` of the result is the copy of object `a`: same contents, fields that are copies. */
  ghost predicate SameObject(h: Heap, t: Table, r: Reader, a: Addr, x: Addr)
    requires a in h && x in r.mem
  {
    match h[a]
    case StrObj(b) => r.mem[x] == DStr(b)
    case DblObj(b) => r.mem[x] == DDbl(b)
    case DblArrayObj(n, data) => r.mem[x] == DDblArray(n, data)
    case Blk(tag, fields) =>
      && r.mem[x].DBlk? && r.mem[x].tag == tag && |r.mem[x].fields| == |fields|
      && forall i :: 0 <= i < |fields| ==> Copy(h, t, r, fields[i], r.mem[x].fields[i])
  }

  /** The reader's graph from `r.root` is the writer's graph from `v0`, up to addresses. */
  ghost predicate Isomorphic(h: Heap, t: Table, r: Reader, v0: Value) {
    && Numbered(h, t, r) && Copy(h, t, r, v0, r.root)
    && forall a :: a in t ==> SameObject(h, t, r, a, r.objs[t[a]])
  }

  /** Marshalling round trip on items, for every graph, cycles and sharing included. */
  lemma GraphRoundTrip(h: Heap, v0: Value, dest: Addr)
    requires GoodHeap(h) && GoodValue(h, v0)
    ensures var (items, t) := Items(h, map[], [v0]);
            var r := ReadAll(Reader(dest, map[], [], DInt(0)), items, [Root]);
            && Isomorphic(h, t, r, v0)
            && (forall k :: 0 <= k < |items| ==> Valid(items[k]))
            && r.dest == dest + TotalWords(items) && |r.objs| == TotalObjects(items)
  {
    var r0 := Reader(dest, map[], [], DInt(0));
    assert InStep(h, map[], [v0], r0, [Root], v0);
    Lockstep(h, map[], [v0], r0, [Root], v0);
    var (items, t) := Items(h, map[], [v0]);
    var r := ReadAll(r0, items, [Root]);
    forall a | a in t ensures SameObject(h, t, r, a, r.objs[t[a]]) {
      assert Built(h, t, r, a, []);
    }
  }
}
