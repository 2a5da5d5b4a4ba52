// extern_rec, extern_value and intern_rec: loops over explicit stacks that
// update an output buffer, a table and counters, or a read pointer and the
// destination area.

module Marshal {
  import opened MarshalCodec
  import opened MarshalGraph
  import opened MarshalStream
  import PositionTable

  // ---------------------------------------------------------------- writer invariants

  /** The table holds positions below the object counter, for objects of the heap. */
  ghost predicate GoodTable(h: Heap, t: Table) {
    t.Keys <= h.Keys && forall a :: a in t ==> t[a] < |t| && !IsAtom(h[a])
  }

  lemma ItemValid(h: Heap, t: Table, v: Value)
    requires GoodHeap(h) && GoodTable(h, t) && GoodValue(h, v)
    ensures Valid(ItemOf(h, t, v)) && GoodTable(h, Record(h, t, v))
    ensures IsNew(h, t, v) <==> Allocates(ItemOf(h, t, v))
    ensures ItemOf(h, t, v).Head? ==> v.Ptr? && v.a in h && h[v.a].Blk? && h[v.a].fields != [] && IsNew(h, t, v)
    ensures |Record(h, t, v)| == |t| + if IsNew(h, t, v) then 1 else 0
  {
    if v.Ptr? {
      assert GoodObject(h, h[v.a]);
      if v.a in t { TableBounded(h, t); }
    }
  }

  /** Emitting the first pending value moves one item from the rest of the message to its done part. */
  lemma MessageStep(h: Heap, t: Table, wp: seq<Value>, done: seq<Item>, whole: (seq<Item>, Table))
    requires wp != [] && whole == (done + Items(h, t, wp).0, Items(h, t, wp).1)
    ensures var v := wp[0]; var next := Items(h, Record(h, t, v), Expand(h, t, v, wp[1..]));
            whole == (done + [ItemOf(h, t, v)] + next.0, next.1)
  {
    ItemsCons(h, t, wp);
    var v := wp[0];
    var r := Items(h, Record(h, t, v), Expand(h, t, v, wp[1..])).0;
    assert done + ([ItemOf(h, t, v)] + r) == done + [ItemOf(h, t, v)] + r;
  }

  /** Going on with field 0 and leaving the other fields on the stack. */
  lemma PushRest(h: Heap, st: seq<OutFrame>, a: Addr)
    requires OutStackOk(h, st) && a in h && h[a].Blk? && h[a].fields != []
    ensures var n := |h[a].fields|; var st' := if n > 1 then st + [OutFrame(a, 1, n - 1)] else st;
            OutStackOk(h, st') && [h[a].fields[0]] + OutPending(h, st') == h[a].fields + OutPending(h, st)
  {
    var x, p := h[a].fields, OutPending(h, st);
    if |x| > 1 {
      OutPushPending(h, st, OutFrame(a, 1, |x| - 1));
      assert x[1..1 + (|x| - 1)] == x[1..];
      ConsAppend(x[0], x[1..], p);
    }
    assert x == [x[0]] + x[1..];
  }

  /** The pending values: the one in hand, if any, before those on the stack. */
  ghost function Ahead(more: bool, v: Value, pending: seq<Value>): seq<Value> {
    if more then [v] + pending else pending
  }

  class Extern {
    const heap: Heap
    const table: PositionTable.Positions
    var out: seq<byte>
    var size32: nat
    var size64: nat
    var objCounter: nat
    var stack: seq<OutFrame>
    ghost var written: seq<Item>

    /** The output and the sizes are those of the items written so far. */
    ghost predicate Consistent()
      reads `out, `size32, `size64, `written
    {
      && AllValid(written) && out == EncodeAll(written)
      && size64 == TotalWords(written) && size32 == TotalWords32(written)
    }

    ghost predicate Tabled()
      reads `objCounter, table, table.slots
    {
      table.Valid() && GoodTable(heap, table.contents) && objCounter == |table.contents|
    }

    constructor (heap: Heap, hash: PositionTable.Hash)
      requires PositionTable.GoodHash(hash)
      ensures Consistent() && Tabled() && fresh(table) && fresh(table.slots) && this.heap == heap
      ensures written == [] && stack == [] && table.contents == map[]
    {
      this.heap := heap;
      table := new PositionTable.Positions(hash);
      out, objCounter, size32, size64, stack, written := [], 0, 0, 0, [], [];
    }

    /** The write and writecode calls for one value, with the size counters. */
    method WriteItem(i: Item)
      requires Consistent() && Valid(i)
      modifies `out, `size32, `size64, `written
      ensures Consistent() && written == old(written) + [i]
    {
      EncodeSnoc(written, i);
      TotalsSnoc(written, i);
      match i {
        case Num(n) => out := out + EncodeNum(n);
        case Shared(d) => out := out + EncodeShared(d);
        case Atom(t) => out := out + Encode(i);
        case Str(b) =>
          out := out + EncodeString(b);
          size32 := size32 + 1 + (|b| + 4) / 4;
          size64 := size64 + 1 + (|b| + 8) / 8;
        case Dbl(b) =>
          out := out + ([CODE_DOUBLE_LITTLE] + b);
          size32 := size32 + 1 + 2;
          size64 := size64 + 1 + 1;
        case DblArray(n, data) =>
          out := out + EncodeDoubles(n, data);
          size32 := size32 + 1 + n * 2;
          size64 := size64 + 1 + n;
        case Head(tag, size) =>
          out := out + EncodeHead(tag, size);
          size32 := size32 + 1 + size;
          size64 := size64 + 1 + size;
      }
      written := written + [i];
    }

    /** extern_record_location for an object just emitted. */
    method RecordObject(a: Addr, h: nat)
      requires Tabled() && a in heap && !IsAtom(heap[a]) && a !in table.contents
      requires PositionTable.FreeFor(table.hash, table.slots[..], a, h)
      modifies `objCounter, table, table.slots
      ensures Tabled() && (table.slots == old(table.slots) || fresh(table.slots))
      ensures table.contents == Record(heap, old(table.contents), Ptr(a))
    {
      table.Record(a, h, objCounter);
      objCounter := objCounter + 1;
    }

    /** Looks up an object that is not an atom; records it if it is new. */
    method Position(a: Addr) returns (i: Item)
      requires Tabled() && a in heap && !IsAtom(heap[a])
      modifies `objCounter, table, table.slots
      ensures Tabled() && (table.slots == old(table.slots) || fresh(table.slots))
      ensures i == ItemOf(heap, old(table.contents), Ptr(a))
      ensures table.contents == Record(heap, old(table.contents), Ptr(a))
    {
      var found, pos, h := table.Lookup(a);
      if found {
        i := Shared(objCounter - pos);
      } else {
        i := ItemOfObject(heap[a]);
        RecordObject(a, h);
      }
    }

    /** The part of the loop of extern_rec that writes one value. */
    method EmitValue(v: Value) returns (i: Item)
      requires GoodHeap(heap) && Consistent() && Tabled() && GoodValue(heap, v)
      modifies `out, `size32, `size64, `written, `objCounter, table, table.slots
      ensures Consistent() && Tabled() && (table.slots == old(table.slots) || fresh(table.slots))
      ensures i == ItemOf(heap, old(table.contents), v) && written == old(written) + [i]
      ensures table.contents == Record(heap, old(table.contents), v)
    {
      ItemValid(heap, table.contents, v);
      match v {
        case Int(n) => i := Num(n);
        case Ptr(a) =>
          if IsAtom(heap[a]) {
            i := Atom(heap[a].tag);
          } else {
            i := Position(a);
          }
      }
      WriteItem(i);
    }

    /** The items written so far and those of the pending values make up the whole message. */
    ghost predicate Writing(v0: Value, wp: seq<Value>)
      reads `out, `objCounter, `size32, `size64, `written, table, table.slots
    {
      && GoodHeap(heap) && Consistent() && Tabled() && objCounter == TotalObjects(written)
      && Items(heap, map[], [v0]) == (written + Items(heap, table.contents, wp).0, Items(heap, table.contents, wp).1)
      && forall k :: 0 <= k < |wp| ==> GoodValue(heap, wp[k])
    }

    /** One turn of the loop: write `v`, the first pending value. */
    method WriteNext(v: Value, ghost v0: Value, ghost rest: seq<Value>) returns (i: Item)
      requires Writing(v0, [v] + rest)
      modifies `out, `size32, `size64, `written, `objCounter, table, table.slots
      ensures table.slots == old(table.slots) || fresh(table.slots)
      ensures i.Head? ==> v.Ptr? && v.a in heap && heap[v.a].Blk? && heap[v.a].fields != []
      ensures Writing(v0, if i.Head? then heap[v.a].fields + rest else rest)
      ensures heap.Keys - table.contents.Keys < heap.Keys - old(table.contents).Keys
              || (table.contents == old(table.contents) && !i.Head?)
    {
      ghost var t, done := table.contents, written;
      assert ([v] + rest)[0] == v && ([v] + rest)[1..] == rest;
      MessageStep(heap, t, [v] + rest, done, Items(heap, map[], [v0]));
      ItemValid(heap, t, v);
      if IsNew(heap, t, v) { Shrinks(heap, t, v); }
      assert v.Ptr? ==> GoodObject(heap, heap[v.a]);
      i := EmitValue(v);
      TotalsSnoc(done, i);
    }

    /** next_item: pop the next value, unless the stack is empty. */
    method NextItem() returns (v: Value, more: bool)
      requires OutStackOk(heap, stack)
      modifies `stack
      ensures OutStackOk(heap, stack) && (more || stack == [])
      ensures Ahead(more, v, OutPending(heap, stack)) == old(OutPending(heap, stack))
    {
      v, more := Int(0), false;
      if stack != [] {
        OutPopPending(heap, stack);
        var f := stack[|stack| - 1];
        v, more := heap[f.a].fields[f.i], true;
        stack := OutPop(stack);
      }
    }

    /** After the header of a block: go on with field 0, leave the others on the stack. */
    method FirstField(a: Addr) returns (v: Value)
      requires OutStackOk(heap, stack) && a in heap && heap[a].Blk? && heap[a].fields != []
      modifies `stack
      ensures OutStackOk(heap, stack)
      ensures [v] + OutPending(heap, stack) == heap[a].fields + old(OutPending(heap, stack))
    {
      PushRest(heap, stack, a);
      var fields := heap[a].fields;
      if |fields| > 1 {
        stack := stack + [OutFrame(a, 1, |fields| - 1)];
      }
      v := fields[0];
    }

    /** One iteration of the loop of extern_rec. */
    method Turn(v: Value, ghost v0: Value) returns (v': Value, more: bool)
      requires OutStackOk(heap, stack) && Writing(v0, [v] + OutPending(heap, stack))
      modifies this, table, table.slots
      ensures table.slots == old(table.slots) || fresh(table.slots)
      ensures OutStackOk(heap, stack) && (more || stack == [])
      ensures Writing(v0, Ahead(more, v', OutPending(heap, stack)))
      ensures heap.Keys - table.contents.Keys < heap.Keys - old(table.contents).Keys
              || (table.contents == old(table.contents)
                  && Ahead(more, v', OutPending(heap, stack)) == old(OutPending(heap, stack)))
    {
      ghost var rest := OutPending(heap, stack);
      var i := WriteNext(v, v0, rest);
      if i.Head? {
        v' := FirstField(v.a);
        more := true;
      } else {
        v', more := NextItem();
      }
    }

    /** extern_rec: the bytes, sizes and object count of the whole graph reachable from `v0`. */
    method ExternRec(v0: Value)
      requires GoodHeap(heap) && Consistent() && Tabled() && GoodValue(heap, v0)
      requires written == [] && stack == [] && table.contents == map[]
      modifies this, table, table.slots
      ensures (written, table.contents) == Items(heap, map[], [v0]) && AllValid(written)
      ensures out == EncodeAll(written)
      ensures size64 == TotalWords(written) && size32 == TotalWords32(written) && objCounter == TotalObjects(written)
    {
      var v, more := v0, true;
      assert [v] + OutPending(heap, stack) == [v0];
      assert written + Items(heap, map[], [v0]).0 == Items(heap, map[], [v0]).0;
      while more
        invariant OutStackOk(heap, stack) && (more || stack == [])
        invariant Writing(v0, Ahead(more, v, OutPending(heap, stack)))
        invariant table.slots == old(table.slots) || fresh(table.slots)
        decreases heap.Keys - table.contents.Keys, |OutPending(heap, stack)| + if more then 1 else 0
      {
        v, more := Turn(v, v0);
      }
      assert written + [] == written;
    }

    /** extern_value: the data, then the header with the counters of that run.  Sizes beyond 64 bits
        cannot arise in memory. */
    method ExternValue(v0: Value) returns (header: seq<byte>)
      requires GoodHeap(heap) && Consistent() && Tabled() && GoodValue(heap, v0)
      requires written == [] && stack == [] && table.contents == map[]
      requires |EncodeAll(Message(heap, v0))| < TWO64 && TotalWords(Message(heap, v0)) < TWO64
      modifies this, table, table.slots
      ensures (written, table.contents) == Items(heap, map[], [v0]) && AllValid(written)
      ensures out == EncodeAll(written) && |out| < TWO64 && size64 < TWO64
      ensures size64 == TotalWords(written) && objCounter == TotalObjects(written) <= |out|
      ensures header == MessageHeader(|out|, TotalObjects(written), TotalWords32(written), TotalWords(written))
    {
      ExternRec(v0);
      ObjectsBounded(written);
      if |out| >= TWO32 || size32 >= TWO32 || size64 >= TWO32 {
        header := Store32(MAGIC_BIG) + Store32(0) + Store64(|out|) + Store64(objCounter) + Store64(size64);
      } else {
        header := Store32(MAGIC_SMALL) + Store32(|out|) + Store32(objCounter) + Store32(size32) + Store32(size64);
      }
    }
  }
}
