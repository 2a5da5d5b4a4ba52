// Streams of items as bytes, the explicit stacks of the two loops, and the
// message header.

module MarshalStream {
  import opened MarshalCodec
  import opened MarshalGraph

  ghost predicate AllValid(items: seq<Item>) {
    forall k :: 0 <= k < |items| ==> Valid(items[k])
  }

  ghost function Concat(parts: seq<seq<byte>>): seq<byte> {
    if parts == [] then [] else parts[0] + Concat(parts[1..])
  }

  lemma {:induction false} ConcatSnoc(parts: seq<seq<byte>>, p: seq<byte>)
    ensures Concat(parts + [p]) == Concat(parts) + p
  {
    if parts == [] {
      assert [] + [p] == [p] && [p][1..] == [];
      assert Concat([p]) == p + Concat([]);
    } else {
      ConcatSnoc(parts[1..], p);
      assert (parts + [p])[0] == parts[0] && (parts + [p])[1..] == parts[1..] + [p];
    }
  }

  ghost function Encoded(items: seq<Item>): (r: seq<seq<byte>>)
    requires AllValid(items)
    ensures |r| == |items| && forall k :: 0 <= k < |items| ==> r[k] == Encode(items[k])
  {
    seq(|items|, k requires 0 <= k < |items| && AllValid(items) => Encode(items[k]))
  }

  ghost function EncodeAll(items: seq<Item>): seq<byte>
    requires AllValid(items)
  {
    Concat(Encoded(items))
  }

  /** The items of the message for `v0`. */
  ghost function Message(h: Heap, v0: Value): (r: seq<Item>)
    requires GoodHeap(h) && GoodValue(h, v0)
    ensures AllValid(r)
  {
    GraphRoundTrip(h, v0, 0);
    Items(h, map[], [v0]).0
  }

  lemma EncodeSnoc(items: seq<Item>, i: Item)
    requires AllValid(items) && Valid(i)
    ensures AllValid(items + [i]) && EncodeAll(items + [i]) == EncodeAll(items) + Encode(i)
  {
    ConcatSnoc(Encoded(items), Encode(i));
    assert Encoded(items + [i]) == Encoded(items) + [Encode(i)];
  }

  lemma EncodeCons(items: seq<Item>)
    requires AllValid(items) && items != []
    ensures AllValid(items[1..]) && EncodeAll(items) == Encode(items[0]) + EncodeAll(items[1..])
  {
    assert Encoded(items)[1..] == Encoded(items[1..]);
  }

  lemma {:induction false} TotalsSnoc(items: seq<Item>, i: Item)
    ensures TotalWords(items + [i]) == TotalWords(items) + Words(i)
    ensures TotalWords32(items + [i]) == TotalWords32(items) + Words32(i)
    ensures TotalObjects(items + [i]) == TotalObjects(items) + if Allocates(i) then 1 else 0
  {
    if items == [] {
      assert items + [i] == [i] && [i][1..] == [];
    } else {
      TotalsSnoc(items[1..], i);
      assert (items + [i])[0] == items[0] && (items + [i])[1..] == items[1..] + [i];
    }
  }

  /** Words taken on a 32-bit reader, which the writer records as well. */
  function Words32(i: Item): nat {
    match i
    case Num(_) => 0
    case Shared(_) => 0
    case Atom(_) => 0
    case Str(b) => 1 + (|b| + 4) / 4
    case Dbl(_) => 3
    case DblArray(n, _) => 1 + n * 2
    case Head(_, size) => 1 + size
  }

  /** The bytes of an object behind its header, on a host with words of `width` bytes; a string has one byte more at
      least, for its padding. */
  function Payload(i: Item, width: nat): nat {
    match i
    case Str(b) => |b| + 1
    case Dbl(_) => 8
    case DblArray(n, _) => 8 * n
    case Head(_, size) => width * size
    case _ => 0
  }

  /** An object with its header takes `n` words of `width` bytes, and no fewer would do. */
  ghost predicate Takes(i: Item, width: nat, n: nat) {
    if Allocates(i) then n >= 1 && width * (n - 1) >= Payload(i, width) && (n > 1 ==> width * (n - 2) < Payload(i, width))
    else n == 0
  }

  /** What the two size counters add up: the words on a host with words of four and of eight bytes. */
  lemma WordsOnBothHosts(i: Item)
    ensures Takes(i, 4, Words32(i)) && Takes(i, 8, Words(i))
  {
  }

  ghost function TotalWords32(items: seq<Item>): nat {
    if items == [] then 0 else Words32(items[0]) + TotalWords32(items[1..])
  }

  // ---------------------------------------------------------------- the writer's stack

  /** struct extern_item: `count` fields of block `a` from field `i` on are still to be written. */
  datatype OutFrame = OutFrame(a: Addr, i: nat, count: nat)

  ghost predicate OutFrameOk(h: Heap, f: OutFrame) {
    f.count > 0 && f.a in h && h[f.a].Blk? && f.i + f.count <= |h[f.a].fields|
  }

  ghost predicate OutStackOk(h: Heap, st: seq<OutFrame>) {
    forall k :: 0 <= k < |st| ==> OutFrameOk(h, st[k])
  }

  /** The values a stack stands for, top frame first. */
  ghost function OutPending(h: Heap, st: seq<OutFrame>): seq<Value>
    requires OutStackOk(h, st)
  {
    if st == [] then []
    else
      var f := st[|st| - 1];
      h[f.a].fields[f.i..f.i + f.count] + OutPending(h, st[..|st| - 1])
  }

  /** The stack after its next value has been taken. */
  function OutPop(st: seq<OutFrame>): seq<OutFrame>
    requires st != []
  {
    var f, below := st[|st| - 1], st[..|st| - 1];
    if f.count <= 1 then below else below + [OutFrame(f.a, f.i + 1, f.count - 1)]
  }

  lemma OutPushPending(h: Heap, st: seq<OutFrame>, f: OutFrame)
    requires OutStackOk(h, st) && OutFrameOk(h, f)
    ensures OutStackOk(h, st + [f])
    ensures OutPending(h, st + [f]) == h[f.a].fields[f.i..f.i + f.count] + OutPending(h, st)
  {
    assert (st + [f])[..|st|] == st;
  }

  lemma SplitFirst<T>(s: seq<T>, i: nat, j: nat)
    requires i < j <= |s|
    ensures s[i..j] == [s[i]] + s[i + 1..j]
  {
  }

  lemma ConsAppend<T>(x: T, a: seq<T>, b: seq<T>)
    ensures [x] + a + b == [x] + (a + b)
  {
  }

  lemma OutPopMany(h: Heap, below: seq<OutFrame>, f: OutFrame)
    requires OutStackOk(h, below) && OutFrameOk(h, f) && f.count > 1
    ensures var top := OutFrame(f.a, f.i + 1, f.count - 1);
            && OutStackOk(h, below + [f]) && OutStackOk(h, below + [top])
            && OutPending(h, below + [f]) == [h[f.a].fields[f.i]] + OutPending(h, below + [top])
  {
    OutPushPending(h, below, f);
    OutPushPending(h, below, OutFrame(f.a, f.i + 1, f.count - 1));
    SplitFirst(h[f.a].fields, f.i, f.i + f.count);
    ConsAppend(h[f.a].fields[f.i], h[f.a].fields[f.i + 1..f.i + f.count], OutPending(h, below));
  }

  lemma OutPopLast(h: Heap, st: seq<OutFrame>)
    requires OutStackOk(h, st) && st != [] && st[|st| - 1].count == 1
    ensures OutStackOk(h, OutPop(st))
    ensures var f := st[|st| - 1]; OutPending(h, st) == [h[f.a].fields[f.i]] + OutPending(h, OutPop(st))
  {
    var f := st[|st| - 1];
    assert OutFrameOk(h, f);
    SplitFirst(h[f.a].fields, f.i, f.i + f.count);
  }

  /** Popping takes exactly the next pending value. */
  lemma OutPopPending(h: Heap, st: seq<OutFrame>)
    requires OutStackOk(h, st) && st != []
    ensures OutStackOk(h, OutPop(st)) && OutFrameOk(h, st[|st| - 1])
    ensures var f := st[|st| - 1]; OutPending(h, st) == [h[f.a].fields[f.i]] + OutPending(h, OutPop(st))
  {
    assert OutFrameOk(h, st[|st| - 1]);
    if st[|st| - 1].count > 1 {
      assert st == st[..|st| - 1] + [st[|st| - 1]];
      OutPopMany(h, st[..|st| - 1], st[|st| - 1]);
    } else {
      OutPopLast(h, st);
    }
  }

  // ---------------------------------------------------------------- the reader's stack

  /** struct intern_item with operation OReadItems: `count` values go to `slot` and its successors. */
  datatype InFrame = InFrame(slot: Slot, count: nat)

  function NextSlot(s: Slot): Slot {
    match s case Root => Root case Fld(a, i) => Fld(a, i + 1)
  }

  function SlotRun(s: Slot, n: nat): (r: seq<Slot>)
    ensures |r| == n
  {
    seq(n, k requires 0 <= k < n => match s case Root => Root case Fld(a, i) => Fld(a, i + k))
  }

  ghost function InPending(st: seq<InFrame>): seq<Slot> {
    if st == [] then []
    else SlotRun(st[|st| - 1].slot, st[|st| - 1].count) + InPending(st[..|st| - 1])
  }

  function InPop(st: seq<InFrame>): seq<InFrame>
    requires st != []
  {
    var f, below := st[|st| - 1], st[..|st| - 1];
    if f.count <= 1 then below else below + [InFrame(NextSlot(f.slot), f.count - 1)]
  }

  ghost predicate InStackOk(st: seq<InFrame>) {
    forall k :: 0 <= k < |st| ==> st[k].count > 0
  }

  lemma SlotRunSplit(s: Slot, n: nat)
    requires n > 0
    ensures SlotRun(s, n) == [s] + SlotRun(NextSlot(s), n - 1)
  {
  }

  lemma {:induction false} InPushPending(st: seq<InFrame>, f: InFrame)
    requires InStackOk(st) && f.count > 0
    ensures InStackOk(st + [f]) && InPending(st + [f]) == SlotRun(f.slot, f.count) + InPending(st)
  {
    assert (st + [f])[..|st|] == st;
  }

  lemma InPopMany(below: seq<InFrame>, s: Slot, n: nat)
    requires InStackOk(below) && n > 1
    ensures InPending(below + [InFrame(s, n)]) == [s] + InPending(below + [InFrame(NextSlot(s), n - 1)])
  {
    InPushPending(below, InFrame(s, n));
    InPushPending(below, InFrame(NextSlot(s), n - 1));
    SlotRunSplit(s, n);
    ConsAppend(s, SlotRun(NextSlot(s), n - 1), InPending(below));
  }

  lemma InPopLast(below: seq<InFrame>, s: Slot)
    requires InStackOk(below)
    ensures InPending(below + [InFrame(s, 1)]) == [s] + InPending(below)
  {
    InPushPending(below, InFrame(s, 1));
    SlotRunSplit(s, 1);
    assert SlotRun(NextSlot(s), 0) == [];
  }

  lemma {:induction false} InPopPending(st: seq<InFrame>)
    requires InStackOk(st) && st != []
    ensures InStackOk(InPop(st))
    ensures InPending(st) == [st[|st| - 1].slot] + InPending(InPop(st))
  {
    var f, below := st[|st| - 1], st[..|st| - 1];
    assert st == below + [f];
    if f.count > 1 {
      InPopMany(below, f.slot, f.count);
    } else {
      InPopLast(below, f.slot);
    }
  }

  // ---------------------------------------------------------------- streams the reader accepts

  /** The items fill the pending slots exactly, and back references lead to earlier objects. */
  ghost predicate Readable(r: Reader, items: seq<Item>, pending: seq<Slot>)
    decreases |items|
  {
    if items == [] then pending == []
    else
      && pending != [] && Valid(items[0]) && IsSlot(r, pending[0]) && IsSlot(Allocate(r, items[0]), pending[0])
      && (items[0].Shared? ==> items[0].d <= |r.objs|)
      && Readable(ReadItem(r, items[0], pending[0]), items[1..], FieldSlots(r, items[0]) + pending[1..])
  }

  lemma {:induction false} ReadableValid(r: Reader, items: seq<Item>, pending: seq<Slot>)
    requires Readable(r, items, pending)
    ensures AllValid(items)
    decreases |items|
  {
    if items != [] {
      ReadableValid(ReadItem(r, items[0], pending[0]), items[1..], FieldSlots(r, items[0]) + pending[1..]);
    }
  }

  /** Whatever the writer emits, the reader can read. */
  lemma {:induction false} ItemsReadable(h: Heap, t: Table, wp: seq<Value>, r: Reader, rp: seq<Slot>, v0: Value)
    requires GoodHeap(h) && InStep(h, t, wp, r, rp, v0)
    ensures Readable(r, Items(h, t, wp).0, rp)
    decreases h.Keys - t.Keys, |wp|
  {
    if wp != [] {
      var v := wp[0];
      var i := ItemOf(h, t, v);
      StepKeeps(h, t, wp, r, rp, v0);
      SlotStays(r, i, rp[0]);
      if IsNew(h, t, v) { Shrinks(h, t, v); }
      ItemsReadable(h, Record(h, t, v), Expand(h, t, v, wp[1..]), ReadItem(r, i, rp[0]), FieldSlots(r, i) + rp[1..],
          v0);
      ItemsCons(h, t, wp);
    }
  }

  // ---------------------------------------------------------------- the header

  const MAGIC_SMALL: nat := 0x8495A6BE
  const MAGIC_BIG: nat := 0x8495A6BF

  /** The header extern_value writes: the small format when the length and the
      sizes fit in 32 bits. */
  function MessageHeader(len: nat, objects: nat, size32: nat, size64: nat): (r: seq<byte>)
    requires len < TWO64 && size64 < TWO64 && objects <= len
    ensures |r| == 20 || |r| == 32
  {
    if len >= TWO32 || size32 >= TWO32 || size64 >= TWO32 then
      Store32(MAGIC_BIG) + Store32(0) + Store64(len) + Store64(objects) + Store64(size64)
    else
      Store32(MAGIC_SMALL) + Store32(len) + Store32(objects) + Store32(size32) + Store32(size64)
  }

  datatype Header = Truncated | BadObject | MarshalHeader(headerLen: nat, dataLen: nat, numObjects: nat, whsize: nat)

  /** Reading the header: 20 bytes, 12 more for the big format, then caml_parse_header on a 64-bit
      host. */
  function ParseHeader(s: seq<byte>): Header {
    if |s| < 20 then Truncated
    else
      var magic := Load32(s);
      if magic == MAGIC_SMALL then MarshalHeader(20, Load32(s[4..]), Load32(s[8..]), Load32(s[16..]))
      else if magic != MAGIC_BIG then BadObject
      else if |s| < 32 then Truncated
      else MarshalHeader(32, Load64(s[8..]), Load64(s[16..]), Load64(s[24..]))
  }

  lemma Drop(a: seq<byte>, b: seq<byte>)
    ensures (a + b)[|a|..] == b
  {
  }

  /** Reading the number stored after a prefix of known length. */
  lemma LoadAfter32(s: seq<byte>, a: seq<byte>, n: nat, rest: seq<byte>)
    requires n < TWO32 && s == a + (Store32(n) + rest)
    ensures |s| >= |a| + 4 && Load32(s[|a|..]) == n
  {
    Drop(a, Store32(n) + rest);
    LoadStore32(n, rest);
  }

  lemma LoadAfter64(s: seq<byte>, a: seq<byte>, n: nat, rest: seq<byte>)
    requires n < TWO64 && s == a + (Store64(n) + rest)
    ensures |s| >= |a| + 8 && Load64(s[|a|..]) == n
  {
    Drop(a, Store64(n) + rest);
    LoadStore64(n, rest);
  }

  lemma Cuts(a: seq<byte>, b: seq<byte>, c: seq<byte>, d: seq<byte>, e: seq<byte>, r: seq<byte>)
    ensures var s := a + b + c + d + e + r;
            && s == [] + (a + (b + c + d + e + r)) && s == a + (b + (c + d + e + r)) && s == (a + b) + (c + (d + e + r))
            && s == (a + b + c) + (d + (e + r)) && s == (a + b + c + d) + (e + r)
  {
  }

  lemma ParseBig(len: nat, objects: nat, size64: nat, rest: seq<byte>)
    requires len < TWO64 && objects < TWO64 && size64 < TWO64
    ensures ParseHeader(Store32(MAGIC_BIG) + Store32(0) + Store64(len) + Store64(objects) + Store64(size64) + rest)
            == MarshalHeader(32, len, objects, size64)
  {
    var a, b, c, d, e := Store32(MAGIC_BIG), Store32(0), Store64(len), Store64(objects), Store64(size64);
    var s := a + b + c + d + e + rest;
    Cuts(a, b, c, d, e, rest);
    LoadAfter32(s, [], MAGIC_BIG, b + c + d + e + rest);
    LoadAfter64(s, a + b, len, d + e + rest);
    LoadAfter64(s, a + b + c, objects, e + rest);
    LoadAfter64(s, a + b + c + d, size64, rest);
    assert s[0..] == s;
  }

  lemma ParseSmall(len: nat, objects: nat, size32: nat, size64: nat, rest: seq<byte>)
    requires len < TWO32 && objects < TWO32 && size32 < TWO32 && size64 < TWO32
    ensures ParseHeader(Store32(MAGIC_SMALL) + Store32(len) + Store32(objects) + Store32(size32) + Store32(size64) + rest)
            == MarshalHeader(20, len, objects, size64)
  {
    var a, b, c, d, e := Store32(MAGIC_SMALL), Store32(len), Store32(objects), Store32(size32), Store32(size64);
    var s := a + b + c + d + e + rest;
    Cuts(a, b, c, d, e, rest);
    LoadAfter32(s, [], MAGIC_SMALL, b + c + d + e + rest);
    LoadAfter32(s, a, len, c + d + e + rest);
    LoadAfter32(s, a + b, objects, d + e + rest);
    LoadAfter32(s, a + b + c + d, size64, rest);
    assert s[0..] == s;
  }

  /** Whatever the format chosen, the reader recovers the length, the object count and the size. */
  lemma MessageHeaderRoundTrip(len: nat, objects: nat, size32: nat, size64: nat, rest: seq<byte>)
    requires len < TWO64 && size64 < TWO64 && objects <= len
    ensures var hd := MessageHeader(len, objects, size32, size64);
            ParseHeader(hd + rest) == MarshalHeader(|hd|, len, objects, size64)
  {
    if len >= TWO32 || size32 >= TWO32 || size64 >= TWO32 {
      ParseBig(len, objects, size64, rest);
    } else {
      ParseSmall(len, objects, size32, size64, rest);
    }
  }

  /** Every object takes at least one byte of the message. */
  lemma {:induction false} ObjectsBounded(items: seq<Item>)
    requires AllValid(items)
    ensures TotalObjects(items) <= |items| <= |EncodeAll(items)|
  {
    if items != [] {
      EncodeCons(items);
      ObjectsBounded(items[1..]);
      assert |Encode(items[0])| >= 1;
    }
  }
}
