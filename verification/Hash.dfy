// The generic hash function (hash.c): breadth-first traversal with a bounded
// queue, and its compatibility with structural comparison.

module Hash {
  import opened Values
  import opened Compare

  const HASH_QUEUE_SIZE: nat := 256

  type Word = x: int | 0 <= x < 0x1_0000_0000

  /** The bit-level functions: MIX, exclusive or, the 32-bit digest of a native integer, FINAL_MIX. */
  datatype Mixer = Mixer(mix: (Word, Word) -> Word, xor: (Word, Word) -> Word, fold: int -> Word, finalMix: Word -> Word)

  // ---------------------------------------------------------------- mixing values

  /** An immediate integer is mixed in its tagged form. */
  function MixInt(m: Mixer, h: Word, n: int): Word {
    m.mix(h, m.fold(2 * n + 1))
  }

  /** The two halves of a double; all NaNs count as one, -0 as +0. */
  function Halves(d: Double): (Word, Word) {
    if IsNaN(d) then (1, 0x7FF0_0000)
    else if d.neg && d.exp == 0 && d.mant == 0 then (0, 0)
    else (d.mant % 0x1_0000_0000, (if d.neg then 0x8000_0000 else 0) + d.exp * 0x10_0000 + d.mant / 0x1_0000_0000)
  }

  function MixDouble(m: Mixer, h: Word, d: Double): Word {
    m.mix(m.mix(h, Halves(d).0), Halves(d).1)
  }

  /** Up to four bytes, the least significant first. */
  function LittleEndian(b0: int, b1: int, b2: int, b3: int): Word
    requires 0 <= b0 < 256 && 0 <= b1 < 256 && 0 <= b2 < 256 && 0 <= b3 < 256
  {
    b0 + b1 * 0x100 + b2 * 0x1_0000 + b3 * 0x100_0000
  }

  /** Little-endian words of four bytes, then up to three bytes. */
  function MixBytes(m: Mixer, h: Word, s: seq<byte>): Word
    decreases |s|
  {
    if |s| >= 4 then MixBytes(m, m.mix(h, LittleEndian(s[0], s[1], s[2], s[3])), s[4..])
    else if |s| == 3 then m.mix(h, LittleEndian(s[0], s[1], s[2], 0))
    else if |s| == 2 then m.mix(h, LittleEndian(s[0], s[1], 0, 0))
    else if |s| == 1 then m.mix(h, LittleEndian(s[0], 0, 0, 0))
    else h
  }

  function MixString(m: Mixer, h: Word, s: seq<byte>): Word {
    m.xor(MixBytes(m, h, s), |s| % 0x1_0000_0000)
  }

  /** A float array stops when enough meaningful values have been seen. */
  function MixDoubles(m: Mixer, h: Word, ds: seq<Double>, num: int): (Word, int)
    decreases |ds|
  {
    if ds == [] then (h, num)
    else
      var h', num' := MixDouble(m, h, ds[0]), num - 1;
      if num' <= 0 then (h', num') else MixDoubles(m, h', ds[1..], num')
  }

  /** The white header of a block, cut to 32 bits. */
  function HeaderWord(tag: nat, size: nat): Word {
    (size * 1024 + tag) % 0x1_0000_0000
  }

  // ---------------------------------------------------------------- the traversal

  function Room(len: nat, wr: nat, sz: nat): (r: nat)
    ensures r <= len && (wr <= sz ==> wr + r <= sz) && (wr > sz ==> r == 0)
  {
    if wr >= sz then 0 else if len <= sz - wr then len else sz - wr
  }

  /** What one value does to the hash and to the number of values still to see. */
  function Visit(m: Mixer, h: Word, v: Value, num: int): (Word, int) {
    match v
    case Int(n) => (MixInt(m, h, n), num - 1)
    case Str(s) => (MixString(m, h, s), num - 1)
    case Dbl(d) => (MixDouble(m, h, d), num - 1)
    case DblArray(ds) => MixDoubles(m, h, ds, num)
    case Blk(tag, fields) => (m.mix(h, HeaderWord(tag, |fields|)), num)
  }

  function Children(v: Value): seq<Value> {
    if v.Blk? then v.fields else []
  }

  /** The loop of caml_hash with the unread part of the queue. */
  function Traverse(m: Mixer, h: Word, queue: seq<Value>, wr: nat, sz: nat, num: int): Word
    decreases |queue| + (if wr <= sz then sz - wr else 0)
  {
    if queue == [] || num <= 0 then h
    else
      var (h', num') := Visit(m, h, queue[0], num);
      var k := Room(|Children(queue[0])|, wr, sz);
      Traverse(m, h', queue[1..] + Children(queue[0])[..k], wr + k, sz, num')
  }

  function QueueLimit(limit: int): (sz: nat)
    ensures sz <= HASH_QUEUE_SIZE
  {
    if limit < 0 || limit > HASH_QUEUE_SIZE then HASH_QUEUE_SIZE else limit
  }

  function HashValue(m: Mixer, count: int, limit: int, seed: Word, v: Value): int {
    m.finalMix(Traverse(m, seed, [v], 1, QueueLimit(limit), count)) % 0x4000_0000
  }

  // ---------------------------------------------------------------- what is hashed

  /** The fields of all blocks of a level, in order. */
  ghost function NextLevel(q: seq<Value>): seq<Value> {
    if q == [] then [] else Children(q[0]) + NextLevel(q[1..])
  }

  lemma {:induction false} NodesConcat(a: seq<Value>, b: seq<Value>)
    ensures NodesOf(a + b) == NodesOf(a) + NodesOf(b)
  {
    if a == [] {
      assert a + b == b;
    } else {
      NodesConcat(a[1..], b);
      assert (a + b)[1..] == a[1..] + b;
    }
  }

  lemma ChildrenAreFewer(q: seq<Value>)
    requires q != []
    ensures NodesOf(q[1..] + Children(q[0])) < NodesOf(q)
  {
    NodesConcat(q[1..], Children(q[0]));
  }

  lemma {:induction false} NextLevelIsSmaller(q: seq<Value>)
    ensures NodesOf(NextLevel(q)) + |q| <= NodesOf(q)
  {
    if q != [] {
      NextLevelIsSmaller(q[1..]);
      NodesConcat(Children(q[0]), NextLevel(q[1..]));
    }
  }

  /** Trees listed level by level. */
  ghost function LevelOrder(q: seq<Value>): seq<Value>
    decreases NodesOf(q)
  {
    if q == [] then [] else
      NextLevelIsSmaller(q);
      q + LevelOrder(NextLevel(q))
  }

  /** One word, or another value, that is mixed into the hash. */
  datatype Token = Number(n: int) | Head(size: nat, tag: nat) | Text(bytes: seq<byte>) | Real(d: Double)

  /** What a value contributes by itself. */
  ghost function Tokens(v: Value): seq<Token> {
    match v
    case Int(n) => [Number(2 * n + 1)]
    case Str(s) => [Text(s)]
    case Dbl(d) => [Real(d)]
    case DblArray(ds) => seq(|ds|, i requires 0 <= i < |ds| => Real(ds[i]))
    case Blk(tag, fields) => [Head(|fields|, tag)]
  }

  ghost function AllTokens(vs: seq<Value>): seq<Token> {
    if vs == [] then [] else Tokens(vs[0]) + AllTokens(vs[1..])
  }

  /** All tokens but headers count. */
  ghost function Meaningful(ts: seq<Token>): nat {
    if ts == [] then 0 else (if ts[|ts| - 1].Head? then 0 else 1) + Meaningful(ts[..|ts| - 1])
  }

  ghost function MixToken(m: Mixer, h: Word, t: Token): Word {
    match t
    case Number(n) => m.mix(h, m.fold(n))
    case Head(size, tag) => m.mix(h, (size * 1024 + tag) % 0x1_0000_0000)
    case Text(s) => m.xor(MixWords(m, h, seq((|s| + 3) / 4, k requires 0 <= k => BytesAt(s, k))), |s| % 0x1_0000_0000)
    case Real(d) => MixWords(m, h, [DoubleBits(d) % 0x1_0000_0000, DoubleBits(d) / 0x1_0000_0000])
  }

  /** Words mixed in one after the other. */
  ghost function MixWords(m: Mixer, h: Word, ws: seq<Word>): Word
    decreases |ws|
  {
    if ws == [] then h else MixWords(m, m.mix(h, ws[0]), ws[1..])
  }

  ghost function MixTokens(m: Mixer, h: Word, ts: seq<Token>): Word
    decreases |ts|
  {
    if ts == [] then h else MixTokens(m, MixToken(m, h, ts[0]), ts[1..])
  }

  /** Byte `i` of a string, 0 behind its end. */
  ghost function ByteAt(s: seq<byte>, i: nat): byte {
    if i < |s| then s[i] else 0
  }

  /** The bytes 4k to 4k + 3 as a little-endian word. */
  ghost function BytesAt(s: seq<byte>, k: nat): Word {
    ByteAt(s, 4 * k) + ByteAt(s, 4 * k + 1) * 0x100 + ByteAt(s, 4 * k + 2) * 0x1_0000 + ByteAt(s, 4 * k + 3) * 0x100_0000
  }

  /** The 64 bits of a double; one pattern for all NaNs, +0 for both zeros. */
  ghost function DoubleBits(d: Double): (b: nat)
    ensures b < 0x1_0000_0000_0000_0000
  {
    if IsNaN(d) then 0x7FF0_0000_0000_0001
    else if d.exp == 0 && d.mant == 0 then 0
    else (if d.neg then 0x8000_0000_0000_0000 else 0) + d.exp * 0x10_0000_0000_0000 + d.mant
  }

  // ---------------------------------------------------------------- the mixing functions

  lemma HalvesAreBits(d: Double)
    ensures Halves(d).0 == DoubleBits(d) % 0x1_0000_0000 && Halves(d).1 == DoubleBits(d) / 0x1_0000_0000
  {
  }

  lemma {:induction false} BytesAreWords(m: Mixer, h: Word, s: seq<byte>)
    ensures MixBytes(m, h, s) == MixWords(m, h, seq((|s| + 3) / 4, k requires 0 <= k => BytesAt(s, k)))
    decreases |s|
  {
    var ws := seq((|s| + 3) / 4, k requires 0 <= k => BytesAt(s, k));
    if |s| >= 4 {
      var h' := m.mix(h, LittleEndian(s[0], s[1], s[2], s[3]));
      BytesAreWords(m, h', s[4..]);
      var rest := seq((|s[4..]| + 3) / 4, k requires 0 <= k => BytesAt(s[4..], k));
      assert |s[4..]| == |s| - 4 && |rest| == |ws| - 1;
      forall k: nat | k < |rest| ensures rest[k] == ws[1..][k] { ShiftedBytes(s, k); }
      assert ws[1..] == rest && ws[0] == BytesAt(s, 0) == LittleEndian(s[0], s[1], s[2], s[3]);
    } else if |s| > 0 {
      assert ws == [BytesAt(s, 0)] && ws[1..] == [];
      assert MixWords(m, h, ws) == m.mix(h, BytesAt(s, 0));
    } else {
      assert ws == [];
    }
  }

  lemma ShiftedBytes(s: seq<byte>, k: nat)
    requires |s| >= 4
    ensures BytesAt(s[4..], k) == BytesAt(s, k + 1)
  {
  }

  lemma TokenOfValue(m: Mixer, h: Word, d: Double, s: seq<byte>)
    ensures MixToken(m, h, Real(d)) == MixDouble(m, h, d)
    ensures MixToken(m, h, Text(s)) == MixString(m, h, s)
  {
    HalvesAreBits(d);
    TwoWords(m, h, DoubleBits(d) % 0x1_0000_0000, DoubleBits(d) / 0x1_0000_0000);
    BytesAreWords(m, h, s);
  }

  lemma TwoWords(m: Mixer, h: Word, a: Word, b: Word)
    ensures MixWords(m, h, [a, b]) == m.mix(m.mix(h, a), b)
  {
    assert [a, b][1..] == [b] && [b][1..] == [];
    assert MixWords(m, m.mix(h, a), [b]) == m.mix(m.mix(h, a), b);
  }

  // ---------------------------------------------------------------- how many tokens

  function Counts(t: Token): nat {
    if t.Head? then 0 else 1
  }

  /** The first `n` tokens are those mixed in when `count` is the number of meaningful ones to see. */
  ghost predicate Cut(ts: seq<Token>, count: int, n: nat) {
    && n <= |ts| && (forall j :: 0 <= j < n ==> Meaningful(ts[..j]) < count)
    && (n < |ts| ==> Meaningful(ts[..n]) >= count)
  }

  ghost function Taken(ts: seq<Token>, count: int): (n: nat)
    ensures n <= |ts|
    decreases |ts|
  {
    if ts == [] || count <= 0 then 0 else 1 + Taken(ts[1..], count - Counts(ts[0]))
  }

  lemma {:induction false} MeaningfulCons(t: Token, ts: seq<Token>)
    ensures Meaningful([t] + ts) == Counts(t) + Meaningful(ts)
    decreases |ts|
  {
    var s := [t] + ts;
    if ts == [] {
      assert s[..0] == [];
    } else {
      assert s[..|s| - 1] == [t] + ts[..|ts| - 1];
      MeaningfulCons(t, ts[..|ts| - 1]);
    }
  }

  lemma {:induction false} TakenIsCut(ts: seq<Token>, count: int)
    ensures Cut(ts, count, Taken(ts, count))
    decreases |ts|
  {
    if ts != [] && count > 0 {
      var rest, n := ts[1..], Taken(ts, count);
      TakenIsCut(rest, count - Counts(ts[0]));
      forall j | 0 <= j <= n ensures j > 0 ==> Meaningful(ts[..j]) == Counts(ts[0]) + Meaningful(rest[..j - 1]) {
        if j > 0 {
          assert ts[..j] == [ts[0]] + rest[..j - 1];
          MeaningfulCons(ts[0], rest[..j - 1]);
        }
      }
    }
  }

  lemma {:induction false} TakenConcat(ts: seq<Token>, more: seq<Token>, num: int)
    ensures Taken(ts + more, num) ==
            if Taken(ts, num) < |ts| then Taken(ts, num) else |ts| + Taken(more, num - Meaningful(ts))
    decreases |ts|
  {
    if ts == [] {
      assert ts + more == more;
    } else if num > 0 {
      assert (ts + more)[1..] == ts[1..] + more && ts == [ts[0]] + ts[1..];
      TakenConcat(ts[1..], more, num - Counts(ts[0]));
      MeaningfulCons(ts[0], ts[1..]);
    }
  }

  lemma {:induction false} MixConcat(m: Mixer, h: Word, ts: seq<Token>, more: seq<Token>)
    ensures MixTokens(m, h, ts + more) == MixTokens(m, MixTokens(m, h, ts), more)
    decreases |ts|
  {
    if ts == [] {
      assert ts + more == more;
    } else {
      assert (ts + more)[1..] == ts[1..] + more;
      MixConcat(m, MixToken(m, h, ts[0]), ts[1..], more);
    }
  }

  ghost predicate VisitIs(m: Mixer, h: Word, ts: seq<Token>, num: int, h': Word, num': int) {
    && h' == MixTokens(m, h, ts[..Taken(ts, num)])
    && if Taken(ts, num) < |ts| then num' <= 0 else num' == num - Meaningful(ts)
  }

  lemma {:induction false} DoublesVisited(m: Mixer, h: Word, ds: seq<Double>, num: int)
    requires num > 0
    ensures var (h', num') := MixDoubles(m, h, ds, num); VisitIs(m, h, Tokens(DblArray(ds)), num, h', num')
    decreases |ds|
  {
    var ts := Tokens(DblArray(ds));
    if ds != [] {
      TokenOfValue(m, h, ds[0], []);
      assert ts[1..] == Tokens(DblArray(ds[1..])) && ts == [ts[0]] + ts[1..];
      MeaningfulCons(ts[0], ts[1..]);
      var h1 := MixDouble(m, h, ds[0]);
      var n := Taken(ts[1..], num - 1);
      assert ts[..1 + n][1..] == ts[1..][..n];
      if num > 1 { DoublesVisited(m, h1, ds[1..], num - 1); }
    }
  }

  lemma ValueVisited(m: Mixer, h: Word, v: Value, num: int)
    requires num > 0
    ensures var (h', num') := Visit(m, h, v, num); VisitIs(m, h, Tokens(v), num, h', num')
  {
    match v
    case Int(n) => OneToken(m, h, Number(2 * n + 1), num);
    case Str(s) =>
      OneToken(m, h, Text(s), num);
      TokenOfValue(m, h, Double(false, 0, 0), s);
    case Dbl(d) =>
      OneToken(m, h, Real(d), num);
      TokenOfValue(m, h, d, []);
    case DblArray(ds) => DoublesVisited(m, h, ds, num);
    case Blk(tag, fields) => OneToken(m, h, Head(|fields|, tag), num);
  }

  lemma OneToken(m: Mixer, h: Word, t: Token, num: int)
    requires num > 0
    ensures VisitIs(m, h, [t], num, MixToken(m, h, t), num - Counts(t))
  {
    assert [t][1..] == [] && [t][..1] == [t] && [t][..0] == [] && [t] + [] == [t];
    MeaningfulCons(t, []);
    assert MixTokens(m, h, [t]) == MixToken(m, h, t);
  }

  // ---------------------------------------------------------------- the queue

  /** All values that enter the queue when `room` more fit. */
  ghost function Queued(q: seq<Value>, room: nat): seq<Value>
    decreases |q| + room
  {
    if q == [] then []
    else
      var k := if |Children(q[0])| <= room then |Children(q[0])| else room;
      [q[0]] + Queued(q[1..] + Children(q[0])[..k], room - k)
  }

  /** What the traversal mixes in, from a queue in which `room` more values fit. */
  ghost function Hashed(m: Mixer, h: Word, q: seq<Value>, room: nat, num: int): Word {
    var ts := AllTokens(Queued(q, room));
    MixTokens(m, h, ts[..Taken(ts, num)])
  }

  lemma {:induction false} TraverseMixes(m: Mixer, h: Word, q: seq<Value>, wr: nat, sz: nat, room: nat, num: int)
    requires room == if wr <= sz then sz - wr else 0
    ensures Traverse(m, h, q, wr, sz, num) == Hashed(m, h, q, room, num)
    decreases |q| + room
  {
    if q != [] && num > 0 {
      var k := if |Children(q[0])| <= room then |Children(q[0])| else room;
      TraverseStep(m, h, q, wr, sz, room, num);
      var (h', num') := Visit(m, h, q[0], num);
      TraverseMixes(m, h', q[1..] + Children(q[0])[..k], wr + k, sz, room - k, num');
      HashedStep(m, h, q, room, num);
    } else {
      HashedEnds(m, h, q, room, num);
    }
  }

  lemma TraverseStep(m: Mixer, h: Word, q: seq<Value>, wr: nat, sz: nat, room: nat, num: int)
    requires q != [] && num > 0 && room == if wr <= sz then sz - wr else 0
    ensures var (h', num') := Visit(m, h, q[0], num); var k := if |Children(q[0])| <= room then |Children(q[0])| else room;
            Traverse(m, h, q, wr, sz, num) == Traverse(m, h', q[1..] + Children(q[0])[..k], wr + k, sz, num')
  {
  }

  lemma HashedEnds(m: Mixer, h: Word, q: seq<Value>, room: nat, num: int)
    requires q == [] || num <= 0
    ensures Hashed(m, h, q, room, num) == h
  {
    var ts := AllTokens(Queued(q, room));
    assert Taken(ts, num) == 0 && ts[..0] == [];
  }

  lemma HashedStep(m: Mixer, h: Word, q: seq<Value>, room: nat, num: int)
    requires q != [] && num > 0
    ensures var (h', num') := Visit(m, h, q[0], num); var k := if |Children(q[0])| <= room then |Children(q[0])| else room;
            Hashed(m, h, q, room, num) == Hashed(m, h', q[1..] + Children(q[0])[..k], room - k, num')
  {
    var (h', num') := Visit(m, h, q[0], num);
    var k := if |Children(q[0])| <= room then |Children(q[0])| else room;
    ValueVisited(m, h, q[0], num);
    QueuedTokens(q, room);
    TokensCut(m, h, Tokens(q[0]), AllTokens(Queued(q[1..] + Children(q[0])[..k], room - k)), num, h', num');
  }

  lemma QueuedTokens(q: seq<Value>, room: nat)
    requires q != []
    ensures var k := if |Children(q[0])| <= room then |Children(q[0])| else room;
            AllTokens(Queued(q, room)) == Tokens(q[0]) + AllTokens(Queued(q[1..] + Children(q[0])[..k], room - k))
  {
    var k := if |Children(q[0])| <= room then |Children(q[0])| else room;
    var rest := Queued(q[1..] + Children(q[0])[..k], room - k);
    assert Queued(q, room) == [q[0]] + rest;
    assert ([q[0]] + rest)[1..] == rest;
  }

  lemma TokensCut(m: Mixer, h: Word, ts: seq<Token>, more: seq<Token>, num: int, h': Word, num': int)
    requires VisitIs(m, h, ts, num, h', num')
    ensures MixTokens(m, h', more[..Taken(more, num')]) == MixTokens(m, h, (ts + more)[..Taken(ts + more, num)])
  {
    TakenConcat(ts, more, num);
    var n := Taken(more, num');
    if Taken(ts, num) < |ts| {
      assert (ts + more)[..Taken(ts, num)] == ts[..Taken(ts, num)] && more[..0] == [];
    } else {
      assert ts[..|ts|] == ts && (ts + more)[..|ts| + n] == ts + more[..n];
      MixConcat(m, h, ts, more[..n]);
    }
  }

  /** The values in the order in which an unbounded queue yields them. */
  ghost function Breadth(q: seq<Value>): seq<Value>
    decreases NodesOf(q)
  {
    if q == [] then []
    else
      ChildrenAreFewer(q);
      [q[0]] + Breadth(q[1..] + Children(q[0]))
  }

  lemma {:induction false} BreadthStarts(q: seq<Value>)
    ensures |Breadth(q)| >= |q| && Breadth(q)[..|q|] == q
    decreases NodesOf(q)
  {
    if q != [] {
      ChildrenAreFewer(q);
      var r := q[1..] + Children(q[0]);
      BreadthStarts(r);
      assert Breadth(r)[..|q| - 1] == Breadth(r)[..|r|][..|q| - 1] == q[1..];
      assert Breadth(q)[..|q|] == [q[0]] + Breadth(r)[..|q| - 1];
    }
  }

  function Prefix(s: seq<Value>, n: nat): seq<Value> {
    if n <= |s| then s[..n] else s
  }

  /** The queue holds the beginning of that order. */
  lemma {:induction false} QueuedIsPrefix(q: seq<Value>, room: nat)
    ensures Queued(q, room) == Prefix(Breadth(q), |q| + room)
    decreases |q| + room
  {
    if q != [] {
      var c := Children(q[0]);
      var k := if |c| <= room then |c| else room;
      QueuedIsPrefix(q[1..] + c[..k], room - k);
      if k < |c| { FullQueue(q, k); } else { assert c[..k] == c; }
      PrefixCons(q[0], Breadth(q[1..] + c), |q| - 1 + room);
      BreadthCons(q);
    }
  }

  lemma BreadthCons(q: seq<Value>)
    requires q != []
    ensures Breadth(q) == [q[0]] + Breadth(q[1..] + Children(q[0]))
  {
  }

  lemma PrefixCons(v: Value, s: seq<Value>, n: nat)
    ensures Prefix([v] + s, n + 1) == [v] + Prefix(s, n)
  {
    if n <= |s| { assert ([v] + s)[..n + 1] == [v] + s[..n]; }
  }

  /** When no more than `k` fields fit, the queue ends with them. */
  lemma FullQueue(q: seq<Value>, k: nat)
    requires q != [] && k <= |Children(q[0])|
    ensures var r := q[1..] + Children(q[0])[..k];
            Prefix(Breadth(r), |r|) == Prefix(Breadth(q[1..] + Children(q[0])), |r|)
  {
    var r, all := q[1..] + Children(q[0])[..k], q[1..] + Children(q[0]);
    BreadthStarts(r);
    BreadthStarts(all);
    assert Breadth(all)[..|r|] == Breadth(all)[..|all|][..|r|] == all[..|r|] == r;
  }

  lemma {:induction false} BreadthConcat(q: seq<Value>, r: seq<Value>)
    ensures Breadth(q + r) == q + Breadth(r + NextLevel(q))
    decreases |q|
  {
    if q == [] {
      assert q + r == r && r + NextLevel(q) == r;
    } else {
      var c := Children(q[0]);
      assert (q + r)[0] == q[0] && (q + r)[1..] + c == q[1..] + (r + c);
      BreadthCons(q + r);
      BreadthConcat(q[1..], r + c);
      NextLevelCons(q, r);
    }
  }

  lemma NextLevelCons(q: seq<Value>, r: seq<Value>)
    requires q != []
    ensures r + Children(q[0]) + NextLevel(q[1..]) == r + NextLevel(q)
  {
    assert NextLevel(q) == Children(q[0]) + NextLevel(q[1..]);
  }

  lemma {:induction false} BreadthIsLevelOrder(q: seq<Value>)
    ensures Breadth(q) == LevelOrder(q)
    decreases NodesOf(q)
  {
    if q != [] {
      NextLevelIsSmaller(q);
      BreadthConcat(q, []);
      assert q + [] == q && [] + NextLevel(q) == NextLevel(q);
      BreadthIsLevelOrder(NextLevel(q));
    }
  }

  /** What is hashed: the tree is listed level by level, cut after the given number of entries, 256 if that
      is negative or larger, and one at least; what the entries contribute is mixed in, in order, until
      `count` meaningful tokens have been seen. */
  lemma HashMeans(m: Mixer, count: int, limit: int, seed: Word, v: Value) returns (n: nat)
    ensures var entries := if limit < 0 || limit > 256 then 256 else if limit == 0 then 1 else limit;
            var ts := AllTokens(Prefix(LevelOrder([v]), entries));
            Cut(ts, count, n) && HashValue(m, count, limit, seed, v) == m.finalMix(MixTokens(m, seed, ts[..n])) % 0x4000_0000
  {
    var sz := QueueLimit(limit);
    var room := if 1 <= sz then sz - 1 else 0;
    TraverseMixes(m, seed, [v], 1, sz, room, count);
    QueuedIsPrefix([v], room);
    BreadthIsLevelOrder([v]);
    var ts := AllTokens(Queued([v], room));
    TakenIsCut(ts, count);
    n := Taken(ts, count);
  }

  /** A block of immediate fields, hashed completely: its header, then its fields in order. */
  lemma FlatBlockHash(m: Mixer, count: int, limit: int, seed: Word, tag: PlainTag, fields: seq<Value>)
    requires (forall k :: 0 <= k < |fields| ==> fields[k].Int?) && |fields| < count && |fields| < limit <= 256
    ensures var numbers := seq(|fields|, k requires 0 <= k < |fields| => Number(2 * fields[k].n + 1));
            HashValue(m, count, limit, seed, Blk(tag, fields))
            == m.finalMix(MixTokens(m, seed, [Head(|fields|, tag)] + numbers)) % 0x4000_0000
  {
    var v := Blk(tag, fields);
    var numbers := seq(|fields|, k requires 0 <= k < |fields| => Number(2 * fields[k].n + 1));
    var n := HashMeans(m, count, limit, seed, v);
    NoChildren(fields);
    NextLevelIsSmaller([v]);
    assert NextLevel([v]) == fields;
    FlatTokens(fields, numbers);
    assert LevelOrder([v]) == [v] + fields;
    assert ([v] + fields)[1..] == fields;
    var ts := [Head(|fields|, tag)] + numbers;
    assert Prefix([v] + fields, limit) == [v] + fields && AllTokens([v] + fields) == ts;
    FullCut(ts, count, n);
  }

  lemma FullCut(ts: seq<Token>, count: int, n: nat)
    requires ts != [] && ts[0].Head? && |ts| <= count && Cut(ts, count, n)
    ensures ts[..n] == ts
  {
    MeaningfulBound(ts, n);
  }

  lemma {:induction false} NoChildren(fields: seq<Value>)
    requires forall k :: 0 <= k < |fields| ==> fields[k].Int?
    ensures NextLevel(fields) == [] && LevelOrder(fields) == fields
  {
    if fields != [] { NoChildren(fields[1..]); }
    NextLevelIsSmaller(fields);
    assert fields + [] == fields;
  }

  lemma {:induction false} FlatTokens(fields: seq<Value>, numbers: seq<Token>)
    requires |numbers| == |fields| && forall k :: 0 <= k < |fields| ==> fields[k].Int? && numbers[k] == Number(2 * fields[k].n + 1)
    ensures AllTokens(fields) == numbers
  {
    if fields != [] {
      FlatTokens(fields[1..], numbers[1..]);
      assert numbers == [numbers[0]] + numbers[1..];
    }
  }

  /** Behind a header, fewer than `n` of the first `n` tokens count. */
  lemma {:induction false} MeaningfulBound(ts: seq<Token>, n: nat)
    requires ts != [] && ts[0].Head? && n <= |ts|
    ensures Meaningful(ts[..n]) <= if n == 0 then 0 else n - 1
    decreases n
  {
    if n > 0 {
      MeaningfulBound(ts, n - 1);
      assert ts[..n][..n - 1] == ts[..n - 1];
    }
  }

  // ---------------------------------------------------------------- values that compare equal

  ghost predicate AllEqual(a: seq<Value>, b: seq<Value>) {
    |a| == |b| && forall k :: 0 <= k < |a| ==> Cmp(a[k], b[k], true) == EQUAL
  }

  lemma {:induction false} EqualStrings(a: seq<byte>, b: seq<byte>)
    requires CmpString(a, b) == EQUAL
    ensures a == b
  {
    if a != [] && b != [] {
      EqualStrings(a[1..], b[1..]);
      assert a == [a[0]] + a[1..] && b == [b[0]] + b[1..];
    }
  }

  lemma EqualKeys(e1: nat, m1: nat, e2: nat, m2: nat)
    requires m1 < TWO52 && m2 < TWO52 && e1 * TWO52 + m1 == e2 * TWO52 + m2
    ensures e1 == e2 && m1 == m2
  {
    assert (e1 - e2) * TWO52 == m2 - m1;
  }

  lemma EqualDoubles(d1: Double, d2: Double)
    requires CmpDouble(d1, d2, true) == EQUAL
    ensures Halves(d1) == Halves(d2)
  {
    if !IsNaN(d1) {
      var a, b := d1.exp * TWO52 + d1.mant, d2.exp * TWO52 + d2.mant;
      assert a == b;
      EqualKeys(d1.exp, d1.mant, d2.exp, d2.mant);
      assert d1.neg != d2.neg ==> a == 0;
      if a == 0 { EqualKeys(d1.exp, d1.mant, 0, 0); }
    }
  }

  lemma {:induction false} EqualFields(a: seq<Value>, b: seq<Value>)
    requires |a| == |b| && CmpFields(a, b, true) == EQUAL
    ensures AllEqual(a, b)
  {
    if a != [] {
      EqualFields(a[1..], b[1..]);
      forall k | 0 <= k < |a| ensures Cmp(a[k], b[k], true) == EQUAL {
        if k > 0 { assert a[k] == a[1..][k - 1] && b[k] == b[1..][k - 1]; }
      }
    }
  }

  lemma {:induction false} EqualDoubleArrays(m: Mixer, h: Word, a: seq<Double>, b: seq<Double>, num: int)
    requires |a| == |b| && CmpDoubles(a, b, true) == EQUAL
    ensures MixDoubles(m, h, a, num) == MixDoubles(m, h, b, num)
    decreases |a|
  {
    if a != [] {
      EqualDoubles(a[0], b[0]);
      if num - 1 > 0 { EqualDoubleArrays(m, MixDouble(m, h, a[0]), a[1..], b[1..], num - 1); }
    }
  }

  lemma EqualVisits(m: Mixer, h: Word, v: Value, w: Value, num: int)
    requires Cmp(v, w, true) == EQUAL
    ensures Visit(m, h, v, num) == Visit(m, h, w, num) && AllEqual(Children(v), Children(w))
  {
    match v
    case Int(_) =>
    case Str(s) => EqualStrings(s, w.bytes);
    case Dbl(d) => EqualDoubles(d, w.d);
    case DblArray(ds) => EqualDoubleArrays(m, h, ds, w.ds, num);
    case Blk(_, fields) => EqualFields(fields, w.fields);
  }

  /** Queues of values that compare equal are traversed in the same way. */
  lemma {:induction false} EqualQueues(m: Mixer, h: Word, a: seq<Value>, b: seq<Value>, wr: nat, sz: nat, num: int)
    requires AllEqual(a, b)
    ensures Traverse(m, h, a, wr, sz, num) == Traverse(m, h, b, wr, sz, num)
    decreases |a| + (if wr <= sz then sz - wr else 0)
  {
    if a != [] && num > 0 {
      var (h', num') := Visit(m, h, a[0], num);
      var ca, cb := Children(a[0]), Children(b[0]);
      var k := Room(|ca|, wr, sz);
      EqualVisits(m, h, a[0], b[0], num);
      EqualQueues(m, h', a[1..] + ca[..k], b[1..] + cb[..k], wr + k, sz, num');
    }
  }

  /** Values that compare equal have the same hash, whatever the count, limit and seed, and whatever the
      mixing functions. */
  lemma HashRespectsCompare(m: Mixer, count: int, limit: int, seed: Word, v: Value, w: Value, total: bool)
    requires Cmp(v, w, total) == EQUAL
    ensures HashValue(m, count, limit, seed, v) == HashValue(m, count, limit, seed, w)
  {
    PartialAgrees(v, w);
    EqualQueues(m, seed, [v], [w], 1, QueueLimit(limit), count);
  }

  // ---------------------------------------------------------------- the loops

  /** caml_hash_mix_string */
  method HashMixString(m: Mixer, h0: Word, s: seq<byte>) returns (h: Word)
    ensures h == MixString(m, h0, s)
  {
    h := h0;
    var i := 0;
    while i + 4 <= |s|
      invariant 0 <= i <= |s| && MixBytes(m, h0, s) == MixBytes(m, h, s[i..])
    {
      ghost var r := s[i..];
      assert r[4..] == s[i + 4..] && r[0] == s[i] && r[1] == s[i + 1] && r[2] == s[i + 2] && r[3] == s[i + 3];
      h := m.mix(h, LittleEndian(s[i], s[i + 1], s[i + 2], s[i + 3]));
      i := i + 4;
    }
    var rest := |s| - i;
    if rest > 0 {
      h := m.mix(h, LittleEndian(s[i], if rest >= 2 then s[i + 1] else 0, if rest == 3 then s[i + 2] else 0, 0));
    }
    h := m.xor(h, |s| % 0x1_0000_0000);
  }

  /** The loop over a float array. */
  method HashMixDoubles(m: Mixer, h0: Word, ds: seq<Double>, num0: int) returns (h: Word, num: int)
    ensures (h, num) == MixDoubles(m, h0, ds, num0)
  {
    h, num := h0, num0;
    var i := 0;
    while i < |ds|
      invariant 0 <= i <= |ds| && MixDoubles(m, h0, ds, num0) == MixDoubles(m, h, ds[i..], num)
    {
      assert ds[i..][0] == ds[i] && ds[i..][1..] == ds[i + 1..];
      h, num := MixDouble(m, h, ds[i]), num - 1;
      if num <= 0 { return; }
      i := i + 1;
    }
  }

  /** The fields of a block enter the queue as long as there is room. */
  method Enqueue(queue: array<Value>, fields: seq<Value>, wr0: nat, sz: nat) returns (wr: nat)
    requires sz <= queue.Length && wr0 <= queue.Length
    modifies queue
    ensures wr == wr0 + Room(|fields|, wr0, sz) <= queue.Length
    ensures queue[..wr] == old(queue[..wr0]) + fields[..Room(|fields|, wr0, sz)]
  {
    wr := wr0;
    var i := 0;
    while i < |fields|
      invariant 0 <= i <= |fields| && wr == wr0 + i && wr0 <= wr <= queue.Length && (i > 0 ==> wr <= sz)
      invariant queue[..wr] == old(queue[..wr0]) + fields[..i]
    {
      if wr >= sz { break; }
      queue[wr] := fields[i];
      assert queue[..wr + 1] == queue[..wr] + [fields[i]] && fields[..i + 1] == fields[..i] + [fields[i]];
      wr := wr + 1;
      i := i + 1;
    }
  }

  /** The switch of caml_hash on one value. */
  method MixValue(m: Mixer, h0: Word, v: Value, num0: int) returns (h: Word, num: int)
    ensures (h, num) == Visit(m, h0, v, num0)
  {
    match v {
      case Int(n) => h, num := MixInt(m, h0, n), num0 - 1;
      case Str(s) => h := HashMixString(m, h0, s); num := num0 - 1;
      case Dbl(d) => h, num := MixDouble(m, h0, d), num0 - 1;
      case DblArray(ds) => h, num := HashMixDoubles(m, h0, ds, num0);
      case Blk(tag, fields) => h, num := m.mix(h0, HeaderWord(tag, |fields|)), num0;
    }
  }

  /** One iteration, with the first `wr` places of the queue filled and the first `rd` read. */
  lemma TraverseNext(m: Mixer, h: Word, filled: seq<Value>, rd: nat, sz: nat, num: int)
    requires rd < |filled| && num > 0
    ensures var v := filled[rd]; var k := Room(|Children(v)|, |filled|, sz); var (h', num') := Visit(m, h, v, num);
            Traverse(m, h, filled[rd..], |filled|, sz, num)
            == Traverse(m, h', (filled + Children(v)[..k])[rd + 1..], |filled| + k, sz, num')
  {
    var v := filled[rd];
    var k := Room(|Children(v)|, |filled|, sz);
    assert filled[rd..][0] == v && filled[rd..][1..] == filled[rd + 1..];
    assert (filled + Children(v)[..k])[rd + 1..] == filled[rd + 1..] + Children(v)[..k];
  }

  /** One iteration of the loop of caml_hash. */
  method HashNext(m: Mixer, queue: array<Value>, h0: Word, rd: nat, wr0: nat, sz: nat, num0: int)
      returns (h: Word, wr: nat, num: int)
    requires rd < wr0 <= queue.Length && sz <= queue.Length && num0 > 0
    modifies queue
    ensures rd + 1 <= wr <= queue.Length
    ensures old(Traverse(m, h0, queue[..wr0][rd..], wr0, sz, num0)) == Traverse(m, h, queue[..wr][rd + 1..], wr, sz, num)
  {
    ghost var filled := queue[..wr0];
    var v := queue[rd];
    TraverseNext(m, h0, filled, rd, sz, num0);
    h, num := MixValue(m, h0, v, num0);
    wr := Enqueue(queue, Children(v), wr0, sz);
    assert queue[..wr] == filled + Children(v)[..Room(|Children(v)|, wr0, sz)];
  }

  /** caml_hash: the loop over a fixed queue computes the traversal. */
  method CamlHash(m: Mixer, count: int, limit: int, seed: Word, obj: Value) returns (r: int)
    ensures r == HashValue(m, count, limit, seed, obj) && 0 <= r < 0x4000_0000
  {
    var queue := new Value[HASH_QUEUE_SIZE](_ => obj);
    var sz := QueueLimit(limit);
    var num, h, rd, wr := count, seed, 0, 1;
    assert queue[..wr][rd..] == [obj];
    ghost var result := Traverse(m, seed, [obj], 1, sz, count);
    while rd < wr && num > 0
      invariant 0 <= rd <= wr <= HASH_QUEUE_SIZE
      invariant result == Traverse(m, h, queue[..wr][rd..], wr, sz, num)
      decreases HASH_QUEUE_SIZE - rd
    {
      h, wr, num := HashNext(m, queue, h, rd, wr, sz, num);
      rd := rd + 1;
    }
    r := m.finalMix(h) % 0x4000_0000;
  }
}
