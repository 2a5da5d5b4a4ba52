// Structural comparison (compare.c): do_compare_val with its explicit stack,
// and the total order that it decides.

module Values {
  const TWO62: int := 0x4000_0000_0000_0000
  const TWO52: nat := 0x10_0000_0000_0000

  type byte = x: int | 0 <= x < 256
  type long = x: int | -TWO62 <= x < TWO62
  type PlainTag = x: nat | x < 246
  type Exponent = x: nat | x < 2048
  type Mantissa = x: nat | x < TWO52

  /** The fields of a double-precision number. */
  datatype Double = Double(neg: bool, exp: Exponent, mant: Mantissa)

  /** Finite trees of immediate integers, strings, floats, float arrays and plain blocks. */
  datatype Value =
    | Int(n: long)
    | Str(bytes: seq<byte>)
    | Dbl(d: Double)
    | DblArray(ds: seq<Double>)
    | Blk(tag: PlainTag, fields: seq<Value>)

  predicate IsNaN(d: Double) {
    d.exp == 2047 && d.mant != 0
  }

  /** The IEEE order of numbers that are not NaN is the order of their keys. */
  function Key(d: Double): int {
    var magnitude := d.exp * TWO52 + d.mant;
    if d.neg then -magnitude else magnitude
  }

  predicate Lt(d1: Double, d2: Double) {
    !IsNaN(d1) && !IsNaN(d2) && Key(d1) < Key(d2)
  }

  /** == on doubles: false when one of them is NaN, true for the two zeros. */
  predicate Eq(d1: Double, d2: Double) {
    !IsNaN(d1) && !IsNaN(d2) && Key(d1) == Key(d2)
  }

  function Significand(d: Double): (m: nat)
    ensures m < 0x20_0000_0000_0000
  {
    if d.exp == 0 then d.mant else TWO52 + d.mant
  }

  const STRING_TAG: nat := 252
  const DOUBLE_TAG: nat := 253
  const DOUBLE_ARRAY_TAG: nat := 254

  function Tag(v: Value): nat
    requires !v.Int?
  {
    match v
    case Str(_) => STRING_TAG
    case Dbl(_) => DOUBLE_TAG
    case DblArray(_) => DOUBLE_ARRAY_TAG
    case Blk(tag, _) => tag
  }
}

module Compare {
  import opened Values

  const LESS: int := -1
  const EQUAL: int := 0
  const GREATER: int := 1
  const UNORDERED: int := -0x8000_0000_0000_0000

  // ---------------------------------------------------------------- the specification

  /** Lexicographic order of strings. */
  function CmpString(a: seq<byte>, b: seq<byte>): int {
    if a == [] || b == [] then |a| - |b|
    else if a[0] != b[0] then (if a[0] < b[0] then LESS else GREATER)
    else CmpString(a[1..], b[1..])
  }

  /** The order of floats in total mode: NaN is equal to itself and less than all other numbers. */
  function CmpDouble(d1: Double, d2: Double, total: bool): int {
    if Lt(d1, d2) then LESS
    else if Lt(d2, d1) then GREATER
    else if Eq(d1, d2) then EQUAL
    else if !total then UNORDERED
    else if !IsNaN(d1) then GREATER
    else if !IsNaN(d2) then LESS
    else EQUAL
  }

  function CmpDoubles(a: seq<Double>, b: seq<Double>, total: bool): int
    requires |a| == |b|
  {
    if a == [] then EQUAL
    else
      var c := CmpDouble(a[0], b[0], total);
      if c != EQUAL then c else CmpDoubles(a[1..], b[1..], total)
  }

  /** Recursive comparison: integers before blocks, blocks by tag, then by contents; plain blocks by
      size, then field by field. */
  function Cmp(v1: Value, v2: Value, total: bool): int
    decreases v1
  {
    if v1.Int? && v2.Int? then v1.n - v2.n
    else if v1.Int? then LESS
    else if v2.Int? then GREATER
    else if Tag(v1) != Tag(v2) then Tag(v1) - Tag(v2)
    else match v1
      case Str(a) => CmpString(a, v2.bytes)
      case Dbl(d) => CmpDouble(d, v2.d, total)
      case DblArray(ds) => if |ds| != |v2.ds| then |ds| - |v2.ds| else CmpDoubles(ds, v2.ds, total)
      case Blk(_, fields) =>
        if |fields| != |v2.fields| then |fields| - |v2.fields| else CmpFields(fields, v2.fields, total)
  }

  function CmpFields(a: seq<Value>, b: seq<Value>, total: bool): int
    requires |a| == |b|
    decreases a
  {
    if a == [] then EQUAL
    else
      var c := Cmp(a[0], b[0], total);
      if c != EQUAL then c else CmpFields(a[1..], b[1..], total)
  }

  // ---------------------------------------------------------------- a total order

  /** Lengths that fit in memory. */
  ghost predicate Small(v: Value)
    decreases v
  {
    match v
    case Int(_) => true
    case Str(b) => |b| < TWO62
    case Dbl(_) => true
    case DblArray(ds) => |ds| < TWO62
    case Blk(_, fields) => |fields| < TWO62 && AllSmall(fields)
  }

  ghost predicate AllSmall(s: seq<Value>)
    decreases s
  {
    s == [] || (Small(s[0]) && AllSmall(s[1..]))
  }

  ghost predicate NoNaN(v: Value)
    decreases v
  {
    match v
    case Int(_) => true
    case Str(_) => true
    case Dbl(d) => !IsNaN(d)
    case DblArray(ds) => forall d :: d in ds ==> !IsNaN(d)
    case Blk(_, fields) => NoNaNs(fields)
  }

  ghost predicate NoNaNs(s: seq<Value>)
    decreases s
  {
    s == [] || (NoNaN(s[0]) && NoNaNs(s[1..]))
  }

  function Sign(r: int): int {
    if r < 0 then LESS else if r > 0 then GREATER else EQUAL
  }

  /** `r2` is the result with the arguments exchanged. */
  ghost predicate Flipped(r1: int, r2: int) {
    -TWO62 - TWO62 <= r1 < TWO62 + TWO62 && -TWO62 - TWO62 <= r2 < TWO62 + TWO62
    && (r1 == UNORDERED <==> r2 == UNORDERED) && (r1 != UNORDERED ==> Sign(r2) == -Sign(r1))
  }

  lemma {:induction false} StringFlip(a: seq<byte>, b: seq<byte>)
    requires |a| < TWO62 && |b| < TWO62
    ensures Flipped(CmpString(a, b), CmpString(b, a)) && CmpString(a, b) != UNORDERED
  {
    if a != [] && b != [] && a[0] == b[0] { StringFlip(a[1..], b[1..]); }
  }

  lemma DoubleFlip(d1: Double, d2: Double, total: bool)
    ensures Flipped(CmpDouble(d1, d2, total), CmpDouble(d2, d1, total))
    ensures total || (!IsNaN(d1) && !IsNaN(d2)) ==> CmpDouble(d1, d2, total) != UNORDERED
  {
  }

  lemma {:induction false} DoublesFlip(a: seq<Double>, b: seq<Double>, total: bool)
    requires |a| == |b|
    ensures Flipped(CmpDoubles(a, b, total), CmpDoubles(b, a, total))
    ensures total ==> CmpDoubles(a, b, total) != UNORDERED
  {
    if a != [] {
      DoubleFlip(a[0], b[0], total);
      DoublesFlip(a[1..], b[1..], total);
    }
  }

  /** Exchanging the arguments reverses the result; in total mode the result is never UNORDERED, and
      a difference of integers, tags or sizes never is. */
  lemma {:induction false} CmpFlip(v1: Value, v2: Value, total: bool)
    requires Small(v1) && Small(v2)
    ensures Flipped(Cmp(v1, v2, total), Cmp(v2, v1, total))
    ensures total ==> Cmp(v1, v2, total) != UNORDERED
    decreases v1
  {
    if !v1.Int? && !v2.Int? && Tag(v1) == Tag(v2) {
      match v1
      case Str(a) => StringFlip(a, v2.bytes);
      case Dbl(d) => DoubleFlip(d, v2.d, total);
      case DblArray(ds) => if |ds| == |v2.ds| { DoublesFlip(ds, v2.ds, total); }
      case Blk(_, fields) => if |fields| == |v2.fields| { FieldsFlip(fields, v2.fields, total); }
    }
  }

  lemma {:induction false} FieldsFlip(a: seq<Value>, b: seq<Value>, total: bool)
    requires |a| == |b| && AllSmall(a) && AllSmall(b)
    ensures Flipped(CmpFields(a, b, total), CmpFields(b, a, total))
    ensures total ==> CmpFields(a, b, total) != UNORDERED
    decreases a
  {
    if a != [] {
      CmpFlip(a[0], b[0], total);
      FieldsFlip(a[1..], b[1..], total);
    }
  }

  /** In total mode every value is equal to itself. */
  lemma {:induction false} CmpReflexive(v: Value)
    ensures Cmp(v, v, true) == EQUAL
    decreases v
  {
    match v
    case Int(_) =>
    case Str(a) => StringReflexive(a);
    case Dbl(_) =>
    case DblArray(ds) => DoublesReflexive(ds);
    case Blk(_, fields) => FieldsReflexive(fields);
  }

  lemma {:induction false} StringReflexive(a: seq<byte>)
    ensures CmpString(a, a) == EQUAL
  {
    if a != [] { StringReflexive(a[1..]); }
  }

  lemma {:induction false} DoublesReflexive(a: seq<Double>)
    ensures CmpDoubles(a, a, true) == EQUAL
  {
    if a != [] { DoublesReflexive(a[1..]); }
  }

  lemma {:induction false} FieldsReflexive(a: seq<Value>)
    ensures CmpFields(a, a, true) == EQUAL
    decreases a
  {
    if a != [] {
      CmpReflexive(a[0]);
      FieldsReflexive(a[1..]);
    }
  }

  /** `r` is the result for the ends of a chain with results `r1` and `r2`. */
  ghost predicate Chained(r1: int, r2: int, r: int) {
    r1 <= 0 && r2 <= 0 ==> r <= 0 && (r1 < 0 || r2 < 0 ==> r < 0)
  }

  lemma {:induction false} StringTransitive(a: seq<byte>, b: seq<byte>, c: seq<byte>)
    ensures Chained(CmpString(a, b), CmpString(b, c), CmpString(a, c))
  {
    if a != [] && b != [] && c != [] && a[0] == b[0] == c[0] {
      StringTransitive(a[1..], b[1..], c[1..]);
    }
  }

  lemma {:induction false} DoublesTransitive(a: seq<Double>, b: seq<Double>, c: seq<Double>)
    requires |a| == |b| == |c|
    ensures Chained(CmpDoubles(a, b, true), CmpDoubles(b, c, true), CmpDoubles(a, c, true))
  {
    if a != [] {
      DoublesTransitive(a[1..], b[1..], c[1..]);
    }
  }

  /** The order is transitive. */
  lemma {:induction false} CmpTransitive(a: Value, b: Value, c: Value)
    ensures Chained(Cmp(a, b, true), Cmp(b, c, true), Cmp(a, c, true))
    decreases a
  {
    if !a.Int? && !b.Int? && !c.Int? && Tag(a) == Tag(b) == Tag(c) {
      match a
      case Str(x) => StringTransitive(x, b.bytes, c.bytes);
      case Dbl(_) =>
      case DblArray(x) => if |x| == |b.ds| == |c.ds| { DoublesTransitive(x, b.ds, c.ds); }
      case Blk(_, x) => if |x| == |b.fields| == |c.fields| { FieldsTransitive(x, b.fields, c.fields); }
    }
  }

  lemma {:induction false} FieldsTransitive(a: seq<Value>, b: seq<Value>, c: seq<Value>)
    requires |a| == |b| == |c|
    ensures Chained(CmpFields(a, b, true), CmpFields(b, c, true), CmpFields(a, c, true))
    decreases a
  {
    if a != [] {
      CmpTransitive(a[0], b[0], c[0]);
      FieldsTransitive(a[1..], b[1..], c[1..]);
    }
  }

  /** NaN is below every other float and equal to NaN. */
  lemma NaNIsLeast(d1: Double, d2: Double)
    requires IsNaN(d1)
    ensures Sign(Cmp(Dbl(d1), Dbl(d2), true)) == if IsNaN(d2) then EQUAL else LESS
    ensures Cmp(Dbl(d1), Dbl(d2), false) == UNORDERED
  {
  }

  /** Partial comparison is total comparison wherever it decides. */
  lemma {:induction false} PartialAgrees(v1: Value, v2: Value)
    ensures Cmp(v1, v2, false) == UNORDERED || Cmp(v1, v2, false) == Cmp(v1, v2, true)
    decreases v1
  {
    if !v1.Int? && !v2.Int? && Tag(v1) == Tag(v2) {
      match v1
      case Str(_) =>
      case Dbl(_) =>
      case DblArray(ds) => if |ds| == |v2.ds| { DoublesPartial(ds, v2.ds); }
      case Blk(_, fields) => if |fields| == |v2.fields| { FieldsPartial(fields, v2.fields); }
    }
  }

  lemma {:induction false} DoublesPartial(a: seq<Double>, b: seq<Double>)
    requires |a| == |b|
    ensures CmpDoubles(a, b, false) == UNORDERED || CmpDoubles(a, b, false) == CmpDoubles(a, b, true)
  {
    if a != [] { DoublesPartial(a[1..], b[1..]); }
  }

  lemma {:induction false} FieldsPartial(a: seq<Value>, b: seq<Value>)
    requires |a| == |b|
    ensures CmpFields(a, b, false) == UNORDERED || CmpFields(a, b, false) == CmpFields(a, b, true)
    decreases a
  {
    if a != [] {
      PartialAgrees(a[0], b[0]);
      FieldsPartial(a[1..], b[1..]);
    }
  }

  /** Without NaN, partial comparison always decides. */
  lemma {:induction false} DecidesWithoutNaN(v1: Value, v2: Value)
    requires Small(v1) && Small(v2) && NoNaN(v1) && NoNaN(v2)
    ensures Cmp(v1, v2, false) == Cmp(v1, v2, true)
    decreases v1
  {
    if !v1.Int? && !v2.Int? && Tag(v1) == Tag(v2) {
      match v1
      case Str(_) =>
      case Dbl(_) =>
      case DblArray(ds) => if |ds| == |v2.ds| { DoublesDecide(ds, v2.ds); }
      case Blk(_, fields) => if |fields| == |v2.fields| { FieldsDecide(fields, v2.fields); }
    }
  }

  lemma {:induction false} DoublesDecide(a: seq<Double>, b: seq<Double>)
    requires |a| == |b| && (forall d :: d in a || d in b ==> !IsNaN(d))
    ensures CmpDoubles(a, b, false) == CmpDoubles(a, b, true)
  {
    if a != [] {
      assert a[0] in a && b[0] in b;
      DoublesDecide(a[1..], b[1..]);
    }
  }

  lemma {:induction false} FieldsDecide(a: seq<Value>, b: seq<Value>)
    requires |a| == |b| && AllSmall(a) && AllSmall(b) && NoNaNs(a) && NoNaNs(b)
    ensures CmpFields(a, b, false) == CmpFields(a, b, true)
    decreases a
  {
    if a != [] {
      DecidesWithoutNaN(a[0], b[0]);
      FieldsDecide(a[1..], b[1..]);
    }
  }

  // ---------------------------------------------------------------- what the order is

  function Pow2(k: nat): (p: nat)
    ensures p > 0
  {
    if k == 0 then 1 else 2 * Pow2(k - 1)
  }

  predicate IsInfinite(d: Double) {
    d.exp == 2047 && d.mant == 0
  }

  /** The value of a finite double, counted in units of 2^-1074, of which all are multiples. */
  function Units(d: Double): int {
    var u := Significand(d) * Pow2(if d.exp == 0 then 0 else d.exp - 1);
    if d.neg then -u else u
  }

  /** The numbers are d1 < d2. */
  ghost predicate NumberBelow(d1: Double, d2: Double) {
    && !IsNaN(d1) && !IsNaN(d2)
    && if IsInfinite(d1) then d1.neg && !(IsInfinite(d2) && d2.neg)
       else if IsInfinite(d2) then !d2.neg
       else Units(d1) < Units(d2)
  }

  ghost predicate NumberSame(d1: Double, d2: Double) {
    && !IsNaN(d1) && !IsNaN(d2)
    && if IsInfinite(d1) || IsInfinite(d2) then IsInfinite(d1) && IsInfinite(d2) && d1.neg == d2.neg
       else Units(d1) == Units(d2)
  }

  ghost predicate DoubleBelow(d1: Double, d2: Double, total: bool) {
    NumberBelow(d1, d2) || (total && IsNaN(d1) && !IsNaN(d2))
  }

  ghost predicate DoubleSame(d1: Double, d2: Double, total: bool) {
    NumberSame(d1, d2) || (total && IsNaN(d1) && IsNaN(d2))
  }

  /** `a` is a proper prefix of `b`, or smaller at the first byte where they differ. */
  ghost predicate StringBelow(a: seq<byte>, b: seq<byte>) {
    exists i :: StringBelowAt(a, b, i)
  }

  ghost predicate StringBelowAt(a: seq<byte>, b: seq<byte>, i: int) {
    0 <= i <= |a| && i < |b| && a[..i] == b[..i] && (i == |a| || a[i] < b[i])
  }

  ghost predicate DoublesBelow(a: seq<Double>, b: seq<Double>, total: bool) {
    exists i :: DoublesBelowAt(a, b, total, i)
  }

  /** The arrays agree before index `i`, where `a` has the smaller number. */
  ghost predicate DoublesBelowAt(a: seq<Double>, b: seq<Double>, total: bool, i: int) {
    && 0 <= i < |a| && |a| == |b| && DoubleBelow(a[i], b[i], total)
    && forall j :: 0 <= j < i ==> DoubleSame(a[j], b[j], total)
  }

  /** Structural equality. */
  ghost predicate Same(v: Value, w: Value, total: bool)
    decreases v
  {
    match v
    case Int(n) => w == Int(n)
    case Str(a) => w == Str(a)
    case Dbl(d) => w.Dbl? && DoubleSame(d, w.d, total)
    case DblArray(ds) => w.DblArray? && |w.ds| == |ds| && forall i :: 0 <= i < |ds| ==> DoubleSame(ds[i], w.ds[i], total)
    case Blk(tag, fields) =>
      w.Blk? && w.tag == tag && |w.fields| == |fields| && forall i :: 0 <= i < |fields| ==> Same(fields[i], w.fields[i], total)
  }

  /** The order of values: integers by size and before all blocks; blocks by tag; strings and floats by
      contents; float arrays and plain blocks by length, then at the first index where they differ. */
  ghost predicate Below(v: Value, w: Value, total: bool)
    decreases v
  {
    if v.Int? then !w.Int? || v.n < w.n
    else if w.Int? then false
    else if Tag(v) != Tag(w) then Tag(v) < Tag(w)
    else match v
      case Str(a) => StringBelow(a, w.bytes)
      case Dbl(d) => DoubleBelow(d, w.d, total)
      case DblArray(ds) => |ds| < |w.ds| || DoublesBelow(ds, w.ds, total)
      case Blk(_, fields) =>
        |fields| < |w.fields| || (|fields| == |w.fields| && FieldsBelow(fields, w.fields, total))
  }

  /** The fields agree before some index, where `a` has the smaller value. */
  ghost predicate FieldsBelow(a: seq<Value>, b: seq<Value>, total: bool)
    requires |a| == |b|
    decreases a
  {
    exists i :: 0 <= i < |a| && Below(a[i], b[i], total) && SameBefore(a, b, total, i)
  }

  ghost predicate SameBefore(a: seq<Value>, b: seq<Value>, total: bool, i: nat) {
    i <= |a| && |a| == |b| && forall j :: 0 <= j < i ==> Same(a[j], b[j], total)
  }

  /** The first difference is one of a NaN and something else, or of two NaNs. */
  ghost predicate Undecided(v: Value, w: Value)
    decreases v
  {
    match v
    case Int(_) => false
    case Str(_) => false
    case Dbl(d) => w.Dbl? && (IsNaN(d) || IsNaN(w.d))
    case DblArray(ds) => w.DblArray? && |ds| == |w.ds| && exists i :: NaNFirst(ds, w.ds, i)
    case Blk(tag, fields) => w.Blk? && tag == w.tag && |fields| == |w.fields| && FieldsUndecided(fields, w.fields)
  }

  ghost predicate NaNFirst(a: seq<Double>, b: seq<Double>, i: int) {
    && 0 <= i < |a| && |a| == |b| && (IsNaN(a[i]) || IsNaN(b[i]))
    && forall j :: 0 <= j < i ==> DoubleSame(a[j], b[j], false)
  }

  ghost predicate FieldsUndecided(a: seq<Value>, b: seq<Value>)
    requires |a| == |b|
    decreases a
  {
    exists i :: 0 <= i < |a| && Undecided(a[i], b[i]) && SameBefore(a, b, false, i)
  }

  // ---------------------------------------------------------------- numbers

  lemma {:induction false} Pow2Grows(j: nat, k: nat)
    requires j <= k
    ensures Pow2(j) <= Pow2(k) && (j < k ==> 2 * Pow2(j) <= Pow2(k))
  {
    if j < k { Pow2Grows(j, k - 1); }
  }

  lemma Scale(a: nat, b: nat, p: nat, q: nat)
    requires p > 0
    ensures a < b && p <= q ==> a * p < b * q
    ensures a == b && p == q ==> a * p == b * q
  {
    if a < b && p <= q {
      assert b * q - a * p == (b - a) * p + b * (q - p);
      assert (b - a) * p > 0 && b * (q - p) >= 0;
    }
  }

  /** The key of a finite double grows with its magnitude. */
  lemma UnitsGrow(d1: Double, d2: Double)
    requires d1.exp < 2047 && d2.exp < 2047 && !d1.neg && !d2.neg && Key(d1) < Key(d2)
    ensures Units(d1) < Units(d2)
  {
    var k1, k2 := if d1.exp == 0 then 0 else d1.exp - 1, if d2.exp == 0 then 0 else d2.exp - 1;
    assert d1.exp < d2.exp || (d1.exp == d2.exp && d1.mant < d2.mant);
    if k1 == k2 {
      Scale(Significand(d1), Significand(d2), Pow2(k1), Pow2(k2));
    } else {
      Pow2Grows(k1, k2);
      Scale(Significand(d1), 2 * TWO52, Pow2(k1), Pow2(k1));
      HalfScale(Significand(d2), Pow2(k1), Pow2(k2));
    }
  }

  lemma HalfScale(m: nat, p: nat, q: nat)
    requires TWO52 <= m && 2 * p <= q
    ensures (2 * TWO52) * p <= m * q
  {
    assert m * q - TWO52 * q == (m - TWO52) * q >= 0;
    assert TWO52 * q - TWO52 * (2 * p) == TWO52 * (q - 2 * p) >= 0;
  }

  function Abs(d: Double): Double {
    d.(neg := false)
  }

  lemma UnitsOfKey(d1: Double, d2: Double)
    requires d1.exp < 2047 && d2.exp < 2047
    ensures Key(d1) < Key(d2) <==> Units(d1) < Units(d2)
    ensures Key(d1) == Key(d2) <==> Units(d1) == Units(d2)
  {
    UnitsSign(d1);
    UnitsSign(d2);
    if Key(Abs(d1)) < Key(Abs(d2)) { UnitsGrow(Abs(d1), Abs(d2)); }
    if Key(Abs(d2)) < Key(Abs(d1)) { UnitsGrow(Abs(d2), Abs(d1)); }
    if Key(Abs(d1)) == Key(Abs(d2)) { assert Abs(d1) == Abs(d2); }
  }

  lemma UnitsSign(d: Double)
    ensures Units(d) == if d.neg then -Units(Abs(d)) else Units(Abs(d))
    ensures Units(Abs(d)) >= 0 && (Units(Abs(d)) == 0 <==> Key(d) == 0)
  {
    Scale(0, Significand(d), Pow2(if d.exp == 0 then 0 else d.exp - 1), Pow2(if d.exp == 0 then 0 else d.exp - 1));
  }

  /** The comparisons of doubles compare their values. */
  lemma KeysDecide(d1: Double, d2: Double)
    ensures Lt(d1, d2) <==> NumberBelow(d1, d2)
    ensures Eq(d1, d2) <==> NumberSame(d1, d2)
  {
    if d1.exp < 2047 && d2.exp < 2047 { UnitsOfKey(d1, d2); }
  }

  // ---------------------------------------------------------------- the characterization

  /** A comparison result `r` says how two things lie. */
  ghost predicate Says(r: int, below: bool, same: bool, above: bool) {
    (r == EQUAL <==> same) && (r < 0 && r != UNORDERED <==> below) && (r > 0 <==> above)
  }

  lemma DoubleDecides(d1: Double, d2: Double, total: bool)
    ensures Says(CmpDouble(d1, d2, total), DoubleBelow(d1, d2, total), DoubleSame(d1, d2, total), DoubleBelow(d2, d1, total))
  {
    KeysDecide(d1, d2);
    KeysDecide(d2, d1);
  }

  lemma {:induction false} StringDecides(a: seq<byte>, b: seq<byte>)
    requires |a| < TWO62 && |b| < TWO62
    ensures Says(CmpString(a, b), StringBelow(a, b), a == b, StringBelow(b, a))
  {
    if a != [] && b != [] {
      if a[0] == b[0] {
        StringDecides(a[1..], b[1..]);
        StringBelowCons(a, b);
        StringBelowCons(b, a);
        assert a == [a[0]] + a[1..] && b == [b[0]] + b[1..];
      } else {
        assert StringBelowAt(a, b, 0) <==> a[0] < b[0];
        assert StringBelowAt(b, a, 0) <==> b[0] < a[0];
        assert forall i :: i > 0 ==> !StringBelowAt(a, b, i) && !StringBelowAt(b, a, i) by { NoCommonStart(a, b); }
      }
    } else {
      assert StringBelowAt(a, b, 0) <==> a == [] && b != [];
      assert StringBelowAt(b, a, 0) <==> b == [] && a != [];
    }
  }

  lemma NoCommonStart(a: seq<byte>, b: seq<byte>)
    requires a != [] && b != [] && a[0] != b[0]
    ensures forall i :: i > 0 ==> !StringBelowAt(a, b, i) && !StringBelowAt(b, a, i)
  {
    forall i | 0 < i <= |a| && i <= |b| ensures a[..i] != b[..i] {
      assert a[..i][0] == a[0] && b[..i][0] == b[0];
    }
  }

  lemma StringBelowCons(a: seq<byte>, b: seq<byte>)
    requires a != [] && b != [] && a[0] == b[0]
    ensures StringBelow(a, b) <==> StringBelow(a[1..], b[1..])
  {
    if StringBelow(a, b) {
      var i :| StringBelowAt(a, b, i);
      assert i > 0 && a[1..][..i - 1] == a[..i][1..] && b[1..][..i - 1] == b[..i][1..];
      assert StringBelowAt(a[1..], b[1..], i - 1);
    }
    if StringBelow(a[1..], b[1..]) {
      var i :| StringBelowAt(a[1..], b[1..], i);
      assert a[..i + 1] == [a[0]] + a[1..][..i] && b[..i + 1] == [b[0]] + b[1..][..i];
      assert StringBelowAt(a, b, i + 1);
    }
  }

  lemma DoublesBelowCons(a: seq<Double>, b: seq<Double>, total: bool)
    requires a != [] && |a| == |b|
    ensures DoublesBelow(a, b, total)
            <==> DoubleBelow(a[0], b[0], total) || (DoubleSame(a[0], b[0], total) && DoublesBelow(a[1..], b[1..], total))
  {
    if DoublesBelow(a, b, total) {
      var i :| DoublesBelowAt(a, b, total, i);
      if i > 0 { assert DoublesBelowAt(a[1..], b[1..], total, i - 1); }
    }
    if DoubleBelow(a[0], b[0], total) {
      assert DoublesBelowAt(a, b, total, 0);
    } else if DoubleSame(a[0], b[0], total) && DoublesBelow(a[1..], b[1..], total) {
      var i :| DoublesBelowAt(a[1..], b[1..], total, i);
      assert forall j :: 0 < j < i + 1 ==> a[j] == a[1..][j - 1] && b[j] == b[1..][j - 1];
      assert DoublesBelowAt(a, b, total, i + 1);
    }
  }

  lemma NaNFirstCons(a: seq<Double>, b: seq<Double>)
    requires a != [] && |a| == |b|
    ensures (exists i :: NaNFirst(a, b, i))
            <==> IsNaN(a[0]) || IsNaN(b[0]) || (DoubleSame(a[0], b[0], false) && exists i :: NaNFirst(a[1..], b[1..], i))
  {
    if i :| NaNFirst(a, b, i) {
      if i > 0 { assert NaNFirst(a[1..], b[1..], i - 1); }
    }
    if IsNaN(a[0]) || IsNaN(b[0]) {
      assert NaNFirst(a, b, 0);
    } else if DoubleSame(a[0], b[0], false) && exists i :: NaNFirst(a[1..], b[1..], i) {
      var i :| NaNFirst(a[1..], b[1..], i);
      assert forall j :: 0 < j < i + 1 ==> a[j] == a[1..][j - 1] && b[j] == b[1..][j - 1];
      assert NaNFirst(a, b, i + 1);
    }
  }

  lemma {:induction false} DoublesSay(a: seq<Double>, b: seq<Double>, total: bool)
    requires |a| == |b|
    ensures Says(CmpDoubles(a, b, total), DoublesBelow(a, b, total), forall i :: 0 <= i < |a| ==> DoubleSame(a[i], b[i], total),
                 DoublesBelow(b, a, total))
    ensures CmpDoubles(a, b, total) == UNORDERED <==> !total && exists i :: NaNFirst(a, b, i)
  {
    if a != [] {
      DoubleDecides(a[0], b[0], total);
      DoublesSay(a[1..], b[1..], total);
      DoublesBelowCons(a, b, total);
      DoublesBelowCons(b, a, total);
      NaNFirstCons(a, b);
      assert forall i :: 0 < i < |a| ==> a[i] == a[1..][i - 1] && b[i] == b[1..][i - 1];
      assert forall i :: 0 <= i < |a| - 1 ==> a[1..][i] == a[i + 1] && b[1..][i] == b[i + 1];
    }
  }

  lemma FieldsBelowCons(a: seq<Value>, b: seq<Value>, total: bool)
    requires a != [] && |a| == |b|
    ensures FieldsBelow(a, b, total)
            <==> Below(a[0], b[0], total) || (Same(a[0], b[0], total) && FieldsBelow(a[1..], b[1..], total))
  {
    if FieldsBelow(a, b, total) {
      var i :| 0 <= i < |a| && Below(a[i], b[i], total) && SameBefore(a, b, total, i);
      if i > 0 {
        assert SameBefore(a[1..], b[1..], total, i - 1);
        assert Below(a[1..][i - 1], b[1..][i - 1], total);
      }
    }
    if Below(a[0], b[0], total) {
      assert SameBefore(a, b, total, 0);
    } else if Same(a[0], b[0], total) && FieldsBelow(a[1..], b[1..], total) {
      var i :| 0 <= i < |a| - 1 && Below(a[1..][i], b[1..][i], total) && SameBefore(a[1..], b[1..], total, i);
      SameBeforeCons(a, b, total, i);
      assert Below(a[i + 1], b[i + 1], total);
    }
  }

  lemma SameBeforeCons(a: seq<Value>, b: seq<Value>, total: bool, i: nat)
    requires a != [] && |a| == |b| && Same(a[0], b[0], total) && SameBefore(a[1..], b[1..], total, i)
    ensures SameBefore(a, b, total, i + 1)
  {
    assert forall j :: 0 < j < i + 1 ==> a[j] == a[1..][j - 1] && b[j] == b[1..][j - 1];
  }

  lemma FieldsUndecidedCons(a: seq<Value>, b: seq<Value>)
    requires a != [] && |a| == |b|
    ensures FieldsUndecided(a, b) <==> Undecided(a[0], b[0]) || (Same(a[0], b[0], false) && FieldsUndecided(a[1..], b[1..]))
  {
    if FieldsUndecided(a, b) {
      var i :| 0 <= i < |a| && Undecided(a[i], b[i]) && SameBefore(a, b, false, i);
      if i > 0 {
        assert SameBefore(a[1..], b[1..], false, i - 1);
        assert Undecided(a[1..][i - 1], b[1..][i - 1]);
      }
    }
    if Undecided(a[0], b[0]) {
      assert SameBefore(a, b, false, 0);
    } else if Same(a[0], b[0], false) && FieldsUndecided(a[1..], b[1..]) {
      var i :| 0 <= i < |a| - 1 && Undecided(a[1..][i], b[1..][i]) && SameBefore(a[1..], b[1..], false, i);
      SameBeforeCons(a, b, false, i);
      assert Undecided(a[i + 1], b[i + 1]);
    }
  }

  lemma {:induction false} FieldsSay(a: seq<Value>, b: seq<Value>, total: bool)
    requires |a| == |b| && AllSmall(a) && AllSmall(b)
    ensures Says(CmpFields(a, b, total), FieldsBelow(a, b, total), SameBefore(a, b, total, |a|), FieldsBelow(b, a, total))
    ensures CmpFields(a, b, total) == UNORDERED <==> !total && FieldsUndecided(a, b)
    decreases a
  {
    if a != [] {
      CompareSays(a[0], b[0], total);
      FieldsSay(a[1..], b[1..], total);
      FieldsBelowCons(a, b, total);
      FieldsBelowCons(b, a, total);
      SameSymmetric(a[0], b[0], total);
      FieldsUndecidedCons(a, b);
      if Same(a[0], b[0], total) && SameBefore(a[1..], b[1..], total, |a| - 1) { SameBeforeCons(a, b, total, |a| - 1); }
      if SameBefore(a, b, total, |a|) { assert SameBefore(a[1..], b[1..], total, |a| - 1); }
    }
  }

  lemma {:induction false} SameSymmetric(v: Value, w: Value, total: bool)
    ensures Same(v, w, total) <==> Same(w, v, total)
    decreases v
  {
    if v.Blk? && w.Blk? && |v.fields| == |w.fields| {
      forall i | 0 <= i < |v.fields| ensures Same(v.fields[i], w.fields[i], total) <==> Same(w.fields[i], v.fields[i], total) {
        SameSymmetric(v.fields[i], w.fields[i], total);
      }
    }
  }

  /** The comparison says exactly how the two values lie in the order, and in partial mode is undecided
      exactly when their first difference involves a NaN. */
  lemma {:induction false} CompareSays(v: Value, w: Value, total: bool)
    requires Small(v) && Small(w)
    ensures Says(Cmp(v, w, total), Below(v, w, total), Same(v, w, total), Below(w, v, total))
    ensures Cmp(v, w, total) == UNORDERED <==> !total && Undecided(v, w)
    decreases v
  {
    if !v.Int? && !w.Int? && Tag(v) == Tag(w) {
      match v
      case Str(a) =>
        StringDecides(a, w.bytes);
        StringFlip(a, w.bytes);
      case Dbl(d) => DoubleDecides(d, w.d, total);
      case DblArray(ds) => if |ds| == |w.ds| { DoublesSay(ds, w.ds, total); }
      case Blk(_, fields) => if |fields| == |w.fields| { FieldsSay(fields, w.fields, total); }
    }
  }

  // ---------------------------------------------------------------- the loop

  /** memcmp on the first `n` bytes. */
  function Memcmp(a: seq<byte>, b: seq<byte>, n: nat): int
    requires n <= |a| && n <= |b|
    decreases n
  {
    if n == 0 then 0 else if a[0] != b[0] then a[0] - b[0] else Memcmp(a[1..], b[1..], n - 1)
  }

  lemma {:induction false} MemcmpDecides(a: seq<byte>, b: seq<byte>)
    ensures var n := if |a| <= |b| then |a| else |b|;
            var m := Memcmp(a, b, n);
            CmpString(a, b) == if m != 0 then Sign(m) else |a| - |b|
  {
    if a != [] && b != [] && a[0] == b[0] { MemcmpDecides(a[1..], b[1..]); }
  }

  /** String_tag: memcmp on the common length, then the lengths. */
  method CompareStrings(a: seq<byte>, b: seq<byte>) returns (r: int)
    ensures r == CmpString(a, b)
  {
    var res := Memcmp(a, b, if |a| <= |b| then |a| else |b|);
    MemcmpDecides(a, b);
    if res < 0 { return LESS; }
    if res > 0 { return GREATER; }
    if |a| != |b| { return |a| - |b|; }
    return EQUAL;
  }

  /** Double_array_tag */
  method CompareDoubles(a: seq<Double>, b: seq<Double>, total: bool) returns (r: int)
    ensures r == if |a| != |b| then |a| - |b| else CmpDoubles(a, b, total)
  {
    if |a| != |b| { return |a| - |b|; }
    var i := 0;
    while i < |a|
      invariant 0 <= i <= |a| && CmpDoubles(a, b, total) == CmpDoubles(a[i..], b[i..], total)
    {
      var d1, d2 := a[i], b[i];
      assert a[i..][0] == d1 && b[i..][0] == d2 && a[i..][1..] == a[i + 1..] && b[i..][1..] == b[i + 1..];
      if Lt(d1, d2) { return LESS; }
      if Lt(d2, d1) { return GREATER; }
      if !Eq(d1, d2) {
        if !total { return UNORDERED; }
        if Eq(d1, d1) { return GREATER; }
        if Eq(d2, d2) { return LESS; }
      }
      i := i + 1;
    }
    return EQUAL;
  }

  /** struct compare_item: fields `i` and following of two blocks of the same size. */
  datatype Item = Item(a: seq<Value>, b: seq<Value>, i: nat)

  ghost predicate StackOk(st: seq<Item>) {
    forall k :: 0 <= k < |st| ==> |st[k].a| == |st[k].b| && st[k].i < |st[k].a|
  }

  /** Comparison of what the stack holds, top item first. */
  ghost function CmpStack(st: seq<Item>, total: bool): int
    requires StackOk(st)
  {
    if st == [] then EQUAL
    else
      var f := st[|st| - 1];
      var c := CmpFields(f.a[f.i..], f.b[f.i..], total);
      if c != EQUAL then c else CmpStack(st[..|st| - 1], total)
  }

  /** The first difference, in `v1` and `v2` or else in the stack. */
  ghost function Rest(v1: Value, v2: Value, st: seq<Item>, total: bool): int
    requires StackOk(st)
  {
    var c := Cmp(v1, v2, total);
    if c != EQUAL then c else CmpStack(st, total)
  }

  ghost function Nodes(v: Value): (n: nat)
    ensures n > 0
    decreases v
  {
    match v
    case Int(_) => 1
    case Str(_) => 1
    case Dbl(_) => 1
    case DblArray(_) => 1
    case Blk(_, fields) => 1 + NodesOf(fields)
  }

  ghost function NodesOf(s: seq<Value>): nat
    decreases s
  {
    if s == [] then 0 else Nodes(s[0]) + NodesOf(s[1..])
  }

  ghost function StackNodes(st: seq<Item>): nat
    requires StackOk(st)
  {
    if st == [] then 0 else NodesOf(st[|st| - 1].a[st[|st| - 1].i..]) + StackNodes(st[..|st| - 1])
  }

  function PopItem(st: seq<Item>): seq<Item>
    requires st != []
  {
    var f, below := st[|st| - 1], st[..|st| - 1];
    if f.i + 1 < |f.a| then below + [Item(f.a, f.b, f.i + 1)] else below
  }

  lemma StackTop(below: seq<Item>, f: Item, total: bool)
    requires StackOk(below) && |f.a| == |f.b| && f.i < |f.a|
    ensures StackOk(below + [f])
    ensures CmpStack(below + [f], total) ==
            (var c := CmpFields(f.a[f.i..], f.b[f.i..], total); if c != EQUAL then c else CmpStack(below, total))
    ensures StackNodes(below + [f]) == NodesOf(f.a[f.i..]) + StackNodes(below)
  {
    assert (below + [f])[..|below|] == below;
  }

  lemma FieldsFrom(a: seq<Value>, b: seq<Value>, i: nat, total: bool)
    requires |a| == |b| && i < |a|
    ensures CmpFields(a[i..], b[i..], total) == (var c := Cmp(a[i], b[i], total); if c != EQUAL then c else CmpFields(a[i + 1..], b[i + 1..], total))
    ensures NodesOf(a[i..]) == Nodes(a[i]) + NodesOf(a[i + 1..])
  {
    assert a[i..][0] == a[i] && b[i..][0] == b[i];
    assert a[i..][1..] == a[i + 1..] && b[i..][1..] == b[i + 1..];
  }

  lemma PopKeeps(st: seq<Item>, total: bool)
    requires StackOk(st) && st != []
    ensures var f := st[|st| - 1];
            && StackOk(PopItem(st)) && CmpStack(st, total) == Rest(f.a[f.i], f.b[f.i], PopItem(st), total)
            && StackNodes(st) == Nodes(f.a[f.i]) + StackNodes(PopItem(st))
  {
    var f, below := st[|st| - 1], st[..|st| - 1];
    FieldsFrom(f.a, f.b, f.i, total);
    if f.i + 1 < |f.a| {
      StackTop(below, Item(f.a, f.b, f.i + 1), total);
    } else {
      assert f.a[f.i + 1..] == [] && f.b[f.i + 1..] == [];
    }
  }

  /** After field 0, the other fields wait on the stack. */
  lemma PushKeeps(a: seq<Value>, b: seq<Value>, st: seq<Item>, total: bool)
    requires StackOk(st) && |a| == |b| > 0
    ensures var st' := if |a| > 1 then st + [Item(a, b, 1)] else st;
            && StackOk(st') && Rest(a[0], b[0], st', total) == (var c := CmpFields(a, b, total); if c != EQUAL then c else CmpStack(st, total))
            && Nodes(a[0]) + StackNodes(st') == NodesOf(a) + StackNodes(st)
  {
    FieldsFrom(a, b, 0, total);
    assert a[0..] == a && b[0..] == b;
    if |a| > 1 {
      StackTop(st, Item(a, b, 1), total);
    } else {
      assert a[1..] == [] && b[1..] == [];
    }
  }

  /** Values that do not need the stack; `again` when it does. */
  method CompareHeads(v1: Value, v2: Value, total: bool, same: bool) returns (again: bool, r: int)
    requires same ==> v1 == v2
    ensures again ==> v1.Blk? && v2.Blk? && v1.tag == v2.tag && |v1.fields| == |v2.fields| > 0
    ensures !again ==> r == Cmp(v1, v2, total)
  {
    again := false;
    CmpReflexive(v1);
    if same && total { return false, EQUAL; }
    if v1.Int? {
      if v2.Int? { return false, v1.n - v2.n; }
      return false, LESS;
    }
    if v2.Int? { return false, GREATER; }
    var t1: int, t2: int := Tag(v1), Tag(v2);
    if t1 != t2 { return false, t1 - t2; }
    match v1 {
      case Str(a) =>
        r := EQUAL;
        if same { StringReflexive(a); } else { r := CompareStrings(a, v2.bytes); }
      case Dbl(d1) =>
        r := CompareDoubles([d1], [v2.d], total);
        assert [d1][1..] == [] && [v2.d][1..] == [];
      case DblArray(ds) => r := CompareDoubles(ds, v2.ds, total);
      case Blk(_, fields) =>
        if |fields| != |v2.fields| { return false, |fields| - |v2.fields|; }
        r, again := EQUAL, |fields| != 0;
    }
  }

  /** do_compare_val: the loop over an explicit stack computes the recursive comparison.  `same` tells
      when two values are the same pointer. */
  method DoCompareVal(a: Value, b: Value, total: bool, same: (Value, Value) -> bool) returns (r: int)
    requires forall x, y :: same(x, y) ==> x == y
    ensures r == Cmp(a, b, total)
  {
    var v1, v2, st := a, b, [];
    while true
      invariant StackOk(st) && Cmp(a, b, total) == Rest(v1, v2, st, total)
      decreases Nodes(v1) + StackNodes(st)
    {
      var again, c := CompareHeads(v1, v2, total, same(v1, v2));
      if again {
        var f1, f2 := v1.fields, v2.fields;
        PushKeeps(f1, f2, st, total);
        if |f1| > 1 {
          st := st + [Item(f1, f2, 1)];
        }
        v1, v2 := f1[0], f2[0];
      } else {
        if c != EQUAL { return c; }
        if st == [] { return EQUAL; }
        PopKeeps(st, total);
        var f := st[|st| - 1];
        v1, v2, st := f.a[f.i], f.b[f.i], PopItem(st);
      }
    }
  }

  // ---------------------------------------------------------------- the relations

  /** caml_compare */
  function CamlCompare(v1: Value, v2: Value): int {
    var res := Cmp(v1, v2, true);
    if res < 0 then LESS else if res > 0 then GREATER else EQUAL
  }

  /** caml_compare is a total order: antisymmetric, transitive, and never undecided. */
  lemma CompareIsTotalOrder(a: Value, b: Value, c: Value)
    requires Small(a) && Small(b)
    ensures CamlCompare(a, a) == EQUAL
    ensures CamlCompare(a, b) == -CamlCompare(b, a)
    ensures CamlCompare(a, b) <= 0 && CamlCompare(b, c) <= 0 ==>
              CamlCompare(a, c) <= 0 && (CamlCompare(a, c) == 0 ==> CamlCompare(a, b) == 0 && CamlCompare(b, c) == 0)
  {
    CmpReflexive(a);
    CmpFlip(a, b, true);
    CmpTransitive(a, b, c);
  }

  /** What compare and the relations mean. */
  lemma RelationsMean(v: Value, w: Value)
    requires Small(v) && Small(w)
    ensures CamlCompare(v, w) == (if Below(v, w, true) then LESS else if Below(w, v, true) then GREATER else EQUAL)
    ensures CamlCompare(v, w) == EQUAL <==> Same(v, w, true)
    ensures (LessThan(v, w) <==> Below(v, w, false)) && (GreaterThan(v, w) <==> Below(w, v, false))
    ensures (Equal(v, w) <==> Same(v, w, false)) && (NotEqual(v, w) <==> !Same(v, w, false))
    ensures (LessEqual(v, w) <==> Below(v, w, false) || Same(v, w, false))
            && (GreaterEqual(v, w) <==> Below(w, v, false) || Same(v, w, false))
  {
    CompareSays(v, w, true);
    CompareSays(v, w, false);
    CmpFlip(v, w, true);
  }

  /** Where partial comparison decides, the relations say what caml_compare says. */
  lemma RelationsMatchCompare(v1: Value, v2: Value)
    requires Cmp(v1, v2, false) != UNORDERED
    ensures LessThan(v1, v2) == (CamlCompare(v1, v2) == LESS) && GreaterThan(v1, v2) == (CamlCompare(v1, v2) == GREATER)
    ensures Equal(v1, v2) == (CamlCompare(v1, v2) == EQUAL)
  {
    PartialAgrees(v1, v2);
  }

  function Equal(v1: Value, v2: Value): bool { Cmp(v1, v2, false) == 0 }
  function NotEqual(v1: Value, v2: Value): bool { Cmp(v1, v2, false) != 0 }
  function LessThan(v1: Value, v2: Value): bool { Cmp(v1, v2, false) < 0 && Cmp(v1, v2, false) != UNORDERED }
  function LessEqual(v1: Value, v2: Value): bool { Cmp(v1, v2, false) <= 0 && Cmp(v1, v2, false) != UNORDERED }
  function GreaterThan(v1: Value, v2: Value): bool { Cmp(v1, v2, false) > 0 }
  function GreaterEqual(v1: Value, v2: Value): bool { Cmp(v1, v2, false) >= 0 }

  /** The six relations fit together: each is the converse of its mirror image, exactly one of <, = and
      > holds unless a NaN makes the values incomparable, and then only <> holds. */
  lemma RelationsAgree(v1: Value, v2: Value)
    requires Small(v1) && Small(v2)
    ensures LessThan(v1, v2) == GreaterThan(v2, v1) && LessEqual(v1, v2) == GreaterEqual(v2, v1)
    ensures Equal(v1, v2) == Equal(v2, v1) && NotEqual(v1, v2) == !Equal(v1, v2)
    ensures LessEqual(v1, v2) == (LessThan(v1, v2) || Equal(v1, v2))
    ensures Cmp(v1, v2, false) != UNORDERED ==> LessThan(v1, v2) != GreaterEqual(v1, v2)
    ensures Cmp(v1, v2, false) == UNORDERED ==>
              !LessEqual(v1, v2) && !GreaterEqual(v1, v2) && !Equal(v1, v2) && NotEqual(v1, v2)
  {
    CmpFlip(v1, v2, false);
  }
}
