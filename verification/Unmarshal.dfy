// intern_rec: a loop over an explicit stack that reads items and builds the
// graph, for arbitrary input; then the round trip from a heap to its copy
// through bytes, and what the header promises about it.

module Unmarshal {
  import opened Basics
  import opened MarshalCodec
  import opened MarshalGraph
  import opened MarshalStream
  import opened Marshal
  import PositionTable

  // ---------------------------------------------------------------- reading arbitrary input

  /** Every pending slot exists, and addresses from `dest` on are unused. */
  ghost predicate Fillable(r: Reader, pending: seq<Slot>) {
    (forall k :: 0 <= k < |pending| ==> IsSlot(r, pending[k])) && forall x :: x in r.mem ==> x < r.dest
  }

  predicate InRange(r: Reader, i: Item) {
    i.Shared? ==> 0 < i.d <= |r.objs|
  }

  /** What intern_rec makes of any input: None where it ends early, holds an unknown code or a back
      reference to an object that does not exist. */
  ghost function ReadStream(r: Reader, s: seq<byte>, pending: seq<Slot>): Option<(Reader, seq<byte>)>
    decreases |s|
  {
    if pending == [] then Some((r, s))
    else
      var p := Decode(s);
      if p.None? || !InRange(r, p.value.item) || !IsSlot(r, pending[0]) then None
      else
        DecodeShrinks(s);
        ReadStream(ReadItem(r, p.value.item, pending[0]), p.value.rest, FieldSlots(r, p.value.item) + pending[1..])
  }

  lemma DecodeShrinks(s: seq<byte>)
    requires Decode(s).Some?
    ensures |Decode(s).value.rest| < |s|
  {
  }

  lemma ReadItemFillable(r: Reader, i: Item, pending: seq<Slot>)
    requires Fillable(r, pending) && pending != []
    ensures Fillable(ReadItem(r, i, pending[0]), FieldSlots(r, i) + pending[1..])
  {
    var r1 := Allocate(r, i);
    var fs := FieldSlots(r, i);
    assert IsSlot(r, pending[0]);
    SlotStays(r, i, pending[0]);
    forall k | 0 <= k < |pending| ensures IsSlot(r1, pending[k]) { SlotStays(r, i, pending[k]); }
    forall k | 0 <= k < |fs + pending[1..]| ensures IsSlot(r1, (fs + pending[1..])[k]) {
      if k >= |fs| { assert (fs + pending[1..])[k] == pending[1 + k - |fs|]; }
    }
  }

  lemma StreamStep(r: Reader, i: Item, tail: seq<byte>, pending: seq<Slot>)
    requires Valid(i) && pending != [] && IsSlot(r, pending[0]) && InRange(r, i)
    ensures ReadStream(r, Encode(i) + tail, pending)
            == ReadStream(ReadItem(r, i, pending[0]), tail, FieldSlots(r, i) + pending[1..])
  {
    ItemRoundTrip(i, tail);
  }

  lemma ReadAllStep(r: Reader, items: seq<Item>, pending: seq<Slot>)
    requires items != [] && pending != [] && IsSlot(r, pending[0])
    ensures ReadAll(r, items, pending)
            == ReadAll(ReadItem(r, items[0], pending[0]), items[1..], FieldSlots(r, items[0]) + pending[1..])
  {
  }

  /** Reading the bytes of items is reading the items: the loop on bytes follows ReadAll. */
  lemma {:induction false} StreamOfItems(r: Reader, items: seq<Item>, pending: seq<Slot>, rest: seq<byte>)
    requires AllValid(items) && Readable(r, items, pending)
    ensures ReadStream(r, EncodeAll(items) + rest, pending) == Some((ReadAll(r, items, pending), rest))
    decreases |items|
  {
    if items == [] {
      assert EncodeAll([]) + rest == rest;
    } else {
      var i := items[0];
      EncodeCons(items);
      ReadAllStep(r, items, pending);
      assert EncodeAll(items) + rest == Encode(i) + (EncodeAll(items[1..]) + rest);
      StreamStep(r, i, EncodeAll(items[1..]) + rest, pending);
      StreamOfItems(ReadItem(r, i, pending[0]), items[1..], FieldSlots(r, i) + pending[1..], rest);
    }
  }

  // ---------------------------------------------------------------- the round trip

  ghost function EmptyReader(start: Addr): Reader {
    Reader(start, map[], [], DInt(0))
  }

  /** Marshalling round trip: from the bytes written for `v0`, whatever follows them, the reader
      builds the same graph up to addresses and consumes exactly those bytes. */
  lemma ByteRoundTrip(h: Heap, v0: Value, start: Addr, rest: seq<byte>)
    requires GoodHeap(h) && GoodValue(h, v0)
    ensures var items := Message(h, v0); var t := Items(h, map[], [v0]).1;
            && ReadStream(EmptyReader(start), EncodeAll(items) + rest, [Root])
               == Some((ReadAll(EmptyReader(start), items, [Root]), rest))
            && Isomorphic(h, t, ReadAll(EmptyReader(start), items, [Root]), v0)
  {
    var items := Message(h, v0);
    GraphRoundTrip(h, v0, start);
    assert InStep(h, map[], [v0], EmptyReader(start), [Root], v0);
    ItemsReadable(h, map[], [v0], EmptyReader(start), [Root], v0);
    StreamOfItems(EmptyReader(start), items, [Root], rest);
  }

  /** The header announces exactly the bytes, the object table entries and the destination words
      that reading the message takes. */
  lemma HeaderIsExact(h: Heap, v0: Value, start: Addr, rest: seq<byte>)
    requires GoodHeap(h) && GoodValue(h, v0)
    ensures var items := Message(h, v0); var out := EncodeAll(items);
            var r := ReadAll(EmptyReader(start), items, [Root]);
            && TotalObjects(items) <= |out|
            && (|out| < TWO64 && TotalWords(items) < TWO64 ==>
              var hd := MessageHeader(|out|, TotalObjects(items), TotalWords32(items), TotalWords(items));
              r.dest >= start && ParseHeader(hd + (out + rest)) == MarshalHeader(|hd|, |out|, |r.objs|, r.dest - start))
  {
    var items := Message(h, v0);
    GraphRoundTrip(h, v0, start);
    ObjectsBounded(items);
    var out := EncodeAll(items);
    if |out| < TWO64 && TotalWords(items) < TWO64 {
      MessageHeaderRoundTrip(|out|, TotalObjects(items), TotalWords32(items), TotalWords(items), out + rest);
    }
  }

  // ---------------------------------------------------------------- the loop

  class Intern {
    var src: seq<byte>
    var dest: Addr
    var mem: map<Addr, DObject>
    var objs: seq<Addr>
    var root: DValue
    var stack: seq<InFrame>

    /** intern_alloc: an empty object table and a destination area at `start`. */
    constructor (input: seq<byte>, start: Addr)
      ensures src == input && stack == [] && State() == Reader(start, map[], [], DInt(0))
    {
      src, dest, mem, objs, root, stack := input, start, map[], [], DInt(0), [];
    }

    ghost function State(): Reader
      reads `dest, `mem, `objs, `root
    {
      Reader(dest, mem, objs, root)
    }

    /** v = Val_hp(intern_dest), the object table and the new block, for an item that allocates. */
    method Build(i: Item)
      requires Allocates(i)
      modifies `dest, `mem, `objs, `stack
      ensures State() == Allocate(old(State()), i)
      ensures stack == old(stack) + if i.Head? && i.size > 0 then [InFrame(Fld(old(dest), 0), i.size)] else []
    {
      objs := objs + [dest];
      mem := mem[dest := NewObject(i)];
      if i.Head? && i.size > 0 {
        stack := stack + [InFrame(Fld(dest, 0), i.size)];
      }
      dest := dest + Words(i);
    }

    /** *dest = v */
    method Store(s: Slot, w: DValue)
      requires IsSlot(State(), s)
      modifies `mem, `root
      ensures State() == Set(old(State()), s, w)
    {
      match s
      case Root => root := w;
      case Fld(a, i) => mem := mem[a := mem[a].(fields := mem[a].fields[i := w])];
    }

    /** Case OReadItems for one decoded item. */
    method Interpret(i: Item, s: Slot)
      requires IsSlot(State(), s) && IsSlot(Allocate(State(), i), s) && InRange(State(), i) && InStackOk(stack)
      modifies `dest, `mem, `objs, `stack, `root
      ensures State() == ReadItem(old(State()), i, s)
      ensures InStackOk(stack) && InPending(stack) == FieldSlots(old(State()), i) + old(InPending(stack))
    {
      ghost var r, below := State(), stack;
      var v;
      if i.Num? {
        v := DInt(i.n);
      } else if i.Atom? {
        v := DAtom(i.atag);
      } else if i.Shared? {
        v := DPtr(objs[|objs| - i.d]);
      } else {
        v := DPtr(dest);
        Build(i);
      }
      Store(s, v);
      StackGrows(r, i, below);
    }

    /** intern_rec. */
    method InternRec() returns (ok: bool)
      requires stack == [] && forall x :: x in mem ==> x < dest
      modifies this
      ensures ok <==> old(ReadStream(State(), src, [Root])).Some?
      ensures ok ==> old(ReadStream(State(), src, [Root])) == Some((State(), src))
    {
      ghost var result := ReadStream(State(), src, [Root]);
      stack := [InFrame(Root, 1)];
      InPushPending([], InFrame(Root, 1));
      assert SlotRun(Root, 1) + [] == [Root];
      while stack != []
        invariant InStackOk(stack) && Fillable(State(), InPending(stack))
        invariant result == ReadStream(State(), src, InPending(stack))
        decreases |src|
      {
        ghost var pending := InPending(stack);
        InPopPending(stack);
        var s := stack[|stack| - 1].slot;
        assert pending[0] == s && pending[1..] == InPending(InPop(stack));
        assert IsSlot(State(), s);
        var p := Decode(src);
        if p.None? { return false; }
        var i := p.value.item;
        if i.Shared? && !(0 < i.d <= |objs|) { return false; }
        DecodeShrinks(src);
        ReadItemFillable(State(), i, pending);
        SlotStays(State(), i, s);
        stack, src := InPop(stack), p.value.rest;
        Interpret(i, s);
      }
      ok := true;
    }
  }

  /** Pushing the frame of a new block puts its slots in front of the pending ones. */
  lemma StackGrows(r: Reader, i: Item, st: seq<InFrame>)
    requires InStackOk(st)
    ensures var st' := st + if i.Head? && i.size > 0 then [InFrame(Fld(r.dest, 0), i.size)] else [];
            InStackOk(st') && InPending(st') == FieldSlots(r, i) + InPending(st)
  {
    if i.Head? && i.size > 0 {
      InPushPending(st, InFrame(Fld(r.dest, 0), i.size));
      assert SlotRun(Fld(r.dest, 0), i.size) == FieldSlots(r, i);
    } else {
      assert st + [] == st;
    }
  }
}
