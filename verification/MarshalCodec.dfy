// The byte format of marshalled data: one item is what extern_rec emits for
// one value and what intern_rec reads back in one turn of its loop.

module MarshalCodec {
  import opened Basics

  type byte = x: int | 0 <= x < 256

  const PREFIX_SMALL_BLOCK: int := 0x80
  const PREFIX_SMALL_INT: int := 0x40
  const PREFIX_SMALL_STRING: int := 0x20
  const CODE_INT8: int := 0x0
  const CODE_INT16: int := 0x1
  const CODE_INT32: int := 0x2
  const CODE_INT64: int := 0x3
  const CODE_SHARED8: int := 0x4
  const CODE_SHARED16: int := 0x5
  const CODE_SHARED32: int := 0x6
  const CODE_DOUBLE_ARRAY32_LITTLE: int := 0x7
  const CODE_BLOCK32: int := 0x8
  const CODE_STRING8: int := 0x9
  const CODE_STRING32: int := 0xA
  const CODE_DOUBLE_LITTLE: int := 0xC
  const CODE_DOUBLE_ARRAY8_LITTLE: int := 0xE
  const CODE_BLOCK64: int := 0x13
  const CODE_SHARED64: int := 0x14
  const CODE_STRING64: int := 0x15
  const CODE_DOUBLE_ARRAY64_LITTLE: int := 0x17

  const TWO8: int := 0x100
  const TWO16: int := 0x1_0000
  const TWO30: int := 0x4000_0000
  const TWO32: int := 0x1_0000_0000
  const TWO62: int := 0x4000_0000_0000_0000
  const TWO64: int := 0x1_0000_0000_0000_0000

  // ---------------------------------------------------------------- big-endian numbers

  function Store16(n: nat): (r: seq<byte>)
    requires n < TWO16
    ensures |r| == 2
  {
    [n / TWO8, n % TWO8]
  }

  function Store32(n: nat): (r: seq<byte>)
    requires n < TWO32
    ensures |r| == 4
  {
    Store16(n / TWO16) + Store16(n % TWO16)
  }

  function Store64(n: nat): (r: seq<byte>)
    requires n < TWO64
    ensures |r| == 8
  {
    Store32(n / TWO32) + Store32(n % TWO32)
  }

  function Load16(s: seq<byte>): (n: nat)
    requires |s| >= 2
    ensures n < TWO16
  {
    s[0] * TWO8 + s[1]
  }

  function Load32(s: seq<byte>): (n: nat)
    requires |s| >= 4
    ensures n < TWO32
  {
    Load16(s) * TWO16 + Load16(s[2..])
  }

  function Load64(s: seq<byte>): (n: nat)
    requires |s| >= 8
    ensures n < TWO64
  {
    Load32(s) * TWO32 + Load32(s[4..])
  }

  lemma LoadStore16(n: nat, rest: seq<byte>)
    requires n < TWO16
    ensures Load16(Store16(n) + rest) == n
  {
  }

  lemma LoadStore32(n: nat, rest: seq<byte>)
    requires n < TWO32
    ensures Load32(Store32(n) + rest) == n
  {
    var hi, lo := n / TWO16, n % TWO16;
    LoadStore16(hi, Store16(lo) + rest);
    LoadStore16(lo, rest);
    assert Store32(n) + rest == Store16(hi) + (Store16(lo) + rest);
    assert (Store32(n) + rest)[2..] == Store16(lo) + rest;
  }

  lemma LoadStore64(n: nat, rest: seq<byte>)
    requires n < TWO64
    ensures Load64(Store64(n) + rest) == n
  {
    var hi, lo := n / TWO32, n % TWO32;
    LoadStore32(hi, Store32(lo) + rest);
    LoadStore32(lo, rest);
    assert Store64(n) + rest == Store32(hi) + (Store32(lo) + rest);
    assert (Store64(n) + rest)[4..] == Store32(lo) + rest;
  }

  /** The low bits of a two's complement number, and reading them back with sign extension. */
  function ToUnsigned(n: int, modulus: nat): (r: nat)
    requires 0 <= n + modulus && n < modulus
    ensures r < modulus
  {
    if n < 0 then n + modulus else n
  }

  function ToSigned(u: nat, modulus: nat): int {
    if 2 * u < modulus then u else u - modulus
  }

  // ---------------------------------------------------------------- items

  /** A number; a back reference; the contents of a string, float or float array; the header of a
      block whose fields follow; an atom. */
  datatype Item =
    | Num(n: int)
    | Shared(d: nat)
    | Str(bytes: seq<byte>)
    | Dbl(bits: seq<byte>)
    | DblArray(doubles: nat, data: seq<byte>)
    | Head(tag: nat, size: nat)
    | Atom(atag: nat)

  /** Colour bits of the headers in the atom table: white. */
  const ATOM_COLOR: nat := 0

  /** What fits the 64-bit value representation. */
  predicate Valid(i: Item) {
    match i
    case Num(n) => -TWO62 <= n < TWO62
    case Shared(d) => 0 < d < TWO64
    case Str(b) => |b| < TWO62
    case Dbl(b) => |b| == 8
    case DblArray(n, data) => 0 < n < TWO62 && |data| == 8 * n
    case Head(t, sz) => t < 256 && 0 < sz <= MAX_WOSIZE
    case Atom(t) => t < 256
  }

  function EncodeNum(n: int): seq<byte>
    requires -TWO62 <= n < TWO62
  {
    if 0 <= n < 0x40 then [PREFIX_SMALL_INT + n]
    else if -0x80 <= n < 0x80 then [CODE_INT8, ToUnsigned(n, TWO8)]
    else if -0x8000 <= n < 0x8000 then [CODE_INT16] + Store16(ToUnsigned(n, TWO16))
    else if n < -TWO30 || n >= TWO30 then [CODE_INT64] + Store64(ToUnsigned(n, TWO64))
    else [CODE_INT32] + Store32(ToUnsigned(n, TWO32))
  }

  function EncodeShared(d: nat): seq<byte>
    requires d < TWO64
  {
    if d < TWO8 then [CODE_SHARED8, d]
    else if d < TWO16 then [CODE_SHARED16] + Store16(d)
    else if d >= TWO32 then [CODE_SHARED64] + Store64(d)
    else [CODE_SHARED32] + Store32(d)
  }

  function EncodeString(b: seq<byte>): seq<byte>
    requires |b| < TWO62
  {
    (if |b| < 0x20 then [PREFIX_SMALL_STRING + |b|]
     else if |b| < TWO8 then [CODE_STRING8, |b|]
     else if |b| < TWO32 then [CODE_STRING32] + Store32(|b|)
     else [CODE_STRING64] + Store64(|b|)) + b
  }

  function EncodeDoubles(n: nat, data: seq<byte>): seq<byte>
    requires n < TWO62
  {
    (if n < TWO8 then [CODE_DOUBLE_ARRAY8_LITTLE, n]
     else if n < TWO32 then [CODE_DOUBLE_ARRAY32_LITTLE] + Store32(n)
     else [CODE_DOUBLE_ARRAY64_LITTLE] + Store64(n)) + data
  }

  /** Make_header: size, two colour bits, tag. */
  function Header(size: nat, color: nat, tag: nat): nat {
    size * 1024 + color * 256 + tag
  }

  function EncodeHead(tag: nat, size: nat): seq<byte>
    requires tag < 256 && size <= MAX_WOSIZE
  {
    if tag < 16 && size < 8 then [PREFIX_SMALL_BLOCK + tag + size * 16]
    else if Header(size, 0, tag) < TWO32 then [CODE_BLOCK32] + Store32(Header(size, 0, tag))
    else [CODE_BLOCK64] + Store64(Header(size, 0, tag))
  }

  function Encode(i: Item): seq<byte>
    requires Valid(i)
  {
    match i
    case Num(n) => EncodeNum(n)
    case Shared(d) => EncodeShared(d)
    case Str(b) => EncodeString(b)
    case Dbl(b) => [CODE_DOUBLE_LITTLE] + b
    case DblArray(n, data) => EncodeDoubles(n, data)
    case Head(t, sz) => EncodeHead(t, sz)
    case Atom(t) => if t < 16 then [PREFIX_SMALL_BLOCK + t] else [CODE_BLOCK32] + Store32(Header(0, ATOM_COLOR, t))
  }

  // ---------------------------------------------------------------- reading

  datatype Parsed = Parsed(item: Item, rest: seq<byte>)

  /** Tag_hd and Wosize_hd. */
  function FromHeader(h: nat): Item {
    if h / 1024 == 0 then Atom(h % 256) else Head(h % 256, h / 1024)
  }

  function TakeString(s: seq<byte>, len: nat): Option<Parsed> {
    if |s| < len then None else Some(Parsed(Str(s[..len]), s[len..]))
  }

  function TakeDoubles(s: seq<byte>, n: nat): Option<Parsed> {
    if |s| < 8 * n then None else Some(Parsed(DblArray(n, s[..8 * n]), s[8 * n..]))
  }

  /** The switch of intern_rec on a code byte; None where the input ends or the code is unknown. */
  function DecodeCode(code: byte, s: seq<byte>): Option<Parsed> {
    if code >= PREFIX_SMALL_BLOCK then
      var (tag, size) := (code % 16, (code / 16) % 8);
      Some(Parsed(if size == 0 then Atom(tag) else Head(tag, size), s))
    else if code >= PREFIX_SMALL_INT then Some(Parsed(Num(code % 64), s))
    else if code >= PREFIX_SMALL_STRING then TakeString(s, code % 32)
    else if code == CODE_INT8 && |s| >= 1 then Some(Parsed(Num(ToSigned(s[0], TWO8)), s[1..]))
    else if code == CODE_INT16 && |s| >= 2 then Some(Parsed(Num(ToSigned(Load16(s), TWO16)), s[2..]))
    else if code == CODE_INT32 && |s| >= 4 then Some(Parsed(Num(ToSigned(Load32(s), TWO32)), s[4..]))
    else if code == CODE_INT64 && |s| >= 8 then Some(Parsed(Num(ToSigned(Load64(s), TWO64)), s[8..]))
    else if code == CODE_SHARED8 && |s| >= 1 then Some(Parsed(Shared(s[0]), s[1..]))
    else if code == CODE_SHARED16 && |s| >= 2 then Some(Parsed(Shared(Load16(s)), s[2..]))
    else if code == CODE_SHARED32 && |s| >= 4 then Some(Parsed(Shared(Load32(s)), s[4..]))
    else if code == CODE_SHARED64 && |s| >= 8 then Some(Parsed(Shared(Load64(s)), s[8..]))
    else if code == CODE_BLOCK32 && |s| >= 4 then Some(Parsed(FromHeader(Load32(s)), s[4..]))
    else if code == CODE_BLOCK64 && |s| >= 8 then Some(Parsed(FromHeader(Load64(s)), s[8..]))
    else if code == CODE_STRING8 && |s| >= 1 then TakeString(s[1..], s[0])
    else if code == CODE_STRING32 && |s| >= 4 then TakeString(s[4..], Load32(s))
    else if code == CODE_STRING64 && |s| >= 8 then TakeString(s[8..], Load64(s))
    else if code == CODE_DOUBLE_LITTLE && |s| >= 8 then Some(Parsed(Dbl(s[..8]), s[8..]))
    else if code == CODE_DOUBLE_ARRAY8_LITTLE && |s| >= 1 then TakeDoubles(s[1..], s[0])
    else if code == CODE_DOUBLE_ARRAY32_LITTLE && |s| >= 4 then TakeDoubles(s[4..], Load32(s))
    else if code == CODE_DOUBLE_ARRAY64_LITTLE && |s| >= 8 then TakeDoubles(s[8..], Load64(s))
    else None
  }

  function Decode(s: seq<byte>): Option<Parsed> {
    if s == [] then None else DecodeCode(s[0], s[1..])
  }

  // ---------------------------------------------------------------- round trip of one item

  lemma DropPrefix(a: seq<byte>, b: seq<byte>)
    ensures (a + b)[|a|..] == b && (a + b)[..|a|] == a
  {
  }

  lemma ShortNumRoundTrip(n: int, rest: seq<byte>)
    requires -0x8000 <= n < 0x8000
    ensures Decode(EncodeNum(n) + rest) == Some(Parsed(Num(n), rest))
  {
    if 0 <= n < 0x40 {
    } else if -0x80 <= n < 0x80 {
      assert (EncodeNum(n) + rest)[1..] == [ToUnsigned(n, TWO8)] + rest;
      DropPrefix([ToUnsigned(n, TWO8)], rest);
    } else {
      var u := ToUnsigned(n, TWO16);
      assert (EncodeNum(n) + rest)[1..] == Store16(u) + rest;
      LoadStore16(u, rest);
      DropPrefix(Store16(u), rest);
    }
  }

  lemma LongNumRoundTrip(n: int, rest: seq<byte>)
    requires -TWO62 <= n < TWO62 && !(-0x8000 <= n < 0x8000)
    ensures Decode(EncodeNum(n) + rest) == Some(Parsed(Num(n), rest))
  {
    if n < -TWO30 || n >= TWO30 {
      var u := ToUnsigned(n, TWO64);
      assert (EncodeNum(n) + rest)[1..] == Store64(u) + rest;
      LoadStore64(u, rest);
      DropPrefix(Store64(u), rest);
    } else {
      var u := ToUnsigned(n, TWO32);
      assert (EncodeNum(n) + rest)[1..] == Store32(u) + rest;
      LoadStore32(u, rest);
      DropPrefix(Store32(u), rest);
    }
  }

  lemma SharedRoundTrip(d: nat, rest: seq<byte>)
    requires d < TWO64
    ensures Decode(EncodeShared(d) + rest) == Some(Parsed(Shared(d), rest))
  {
    var s := (EncodeShared(d) + rest)[1..];
    if d < TWO8 {
      assert s == [d] + rest;
      DropPrefix([d], rest);
    } else if d < TWO16 {
      assert s == Store16(d) + rest;
      LoadStore16(d, rest);
      DropPrefix(Store16(d), rest);
    } else if d >= TWO32 {
      assert s == Store64(d) + rest;
      LoadStore64(d, rest);
      DropPrefix(Store64(d), rest);
    } else {
      assert s == Store32(d) + rest;
      LoadStore32(d, rest);
      DropPrefix(Store32(d), rest);
    }
  }

  lemma StringRoundTrip(b: seq<byte>, rest: seq<byte>)
    requires |b| < TWO62
    ensures Decode(EncodeString(b) + rest) == Some(Parsed(Str(b), rest))
  {
    var s := (EncodeString(b) + rest)[1..];
    DropPrefix(b, rest);
    if |b| < 0x20 {
      assert s == b + rest;
    } else if |b| < TWO8 {
      assert s == [|b|] + (b + rest);
      DropPrefix([|b|], b + rest);
    } else if |b| < TWO32 {
      assert s == Store32(|b|) + (b + rest);
      LoadStore32(|b|, b + rest);
      DropPrefix(Store32(|b|), b + rest);
    } else {
      assert s == Store64(|b|) + (b + rest);
      LoadStore64(|b|, b + rest);
      DropPrefix(Store64(|b|), b + rest);
    }
  }

  lemma DoublesRoundTrip(n: nat, data: seq<byte>, rest: seq<byte>)
    requires n < TWO62 && |data| == 8 * n
    ensures Decode(EncodeDoubles(n, data) + rest) == Some(Parsed(DblArray(n, data), rest))
  {
    var s := (EncodeDoubles(n, data) + rest)[1..];
    DropPrefix(data, rest);
    if n < TWO8 {
      assert s == [n] + (data + rest);
      DropPrefix([n], data + rest);
    } else if n < TWO32 {
      assert s == Store32(n) + (data + rest);
      LoadStore32(n, data + rest);
      DropPrefix(Store32(n), data + rest);
    } else {
      assert s == Store64(n) + (data + rest);
      LoadStore64(n, data + rest);
      DropPrefix(Store64(n), data + rest);
    }
  }

  lemma HeaderRoundTrip(size: nat, color: nat, tag: nat)
    requires color < 4 && tag < 256
    ensures FromHeader(Header(size, color, tag)) == if size == 0 then Atom(tag) else Head(tag, size)
  {
    Divide1024(size, color * 256 + tag);
    Remainder256(size * 4 + color, tag);
  }

  lemma Divide1024(q: nat, r: nat)
    requires r < 1024
    ensures (q * 1024 + r) / 1024 == q
  {
  }

  lemma Remainder256(q: nat, r: nat)
    requires r < 256
    ensures (q * 256 + r) % 256 == r
  {
  }

  lemma HeadRoundTrip(tag: nat, size: nat, rest: seq<byte>)
    requires tag < 256 && 0 < size <= MAX_WOSIZE
    ensures Decode(EncodeHead(tag, size) + rest) == Some(Parsed(Head(tag, size), rest))
  {
    var s := (EncodeHead(tag, size) + rest)[1..];
    var h := Header(size, 0, tag);
    HeaderRoundTrip(size, 0, tag);
    if tag < 16 && size < 8 {
      assert s == rest;
    } else if h < TWO32 {
      assert s == Store32(h) + rest;
      LoadStore32(h, rest);
      DropPrefix(Store32(h), rest);
    } else {
      assert s == Store64(h) + rest;
      LoadStore64(h, rest);
      DropPrefix(Store64(h), rest);
    }
  }

  lemma SmallAtomRoundTrip(t: nat, rest: seq<byte>)
    requires t < 16
    ensures Decode(Encode(Atom(t)) + rest) == Some(Parsed(Atom(t), rest))
  {
    assert (Encode(Atom(t)) + rest)[1..] == rest;
  }

  lemma LargeAtomRoundTrip(t: nat, rest: seq<byte>)
    requires 16 <= t < 256
    ensures Decode(Encode(Atom(t)) + rest) == Some(Parsed(Atom(t), rest))
  {
    var h := Header(0, ATOM_COLOR, t);
    HeaderRoundTrip(0, ATOM_COLOR, t);
    assert (Encode(Atom(t)) + rest)[1..] == Store32(h) + rest;
    LoadStore32(h, rest);
    DropPrefix(Store32(h), rest);
  }

  /** Every item is read back exactly, whatever follows it in the stream. */
  lemma ItemRoundTrip(i: Item, rest: seq<byte>)
    requires Valid(i)
    ensures Decode(Encode(i) + rest) == Some(Parsed(i, rest))
  {
    match i
    case Num(n) => if -0x8000 <= n < 0x8000 { ShortNumRoundTrip(n, rest); } else { LongNumRoundTrip(n, rest); }
    case Shared(d) => SharedRoundTrip(d, rest);
    case Str(b) => StringRoundTrip(b, rest);
    case Dbl(b) =>
      assert (Encode(i) + rest)[1..] == b + rest;
      DropPrefix(b, rest);
    case DblArray(n, data) => DoublesRoundTrip(n, data, rest);
    case Head(t, sz) => HeadRoundTrip(t, sz, rest);
    case Atom(t) => if t < 16 { SmallAtomRoundTrip(t, rest); } else { LargeAtomRoundTrip(t, rest); }
  }
}
