// The index of the first-fit policy (freelist.c): flp holds, in order, the
// predecessors of the blocks that are larger than every block before them.

module FlpIndex {
  type Addr = nat

  /** The free list by increasing address, and the sizes of its blocks. */
  datatype FreeList = FreeList(head: Addr, blocks: seq<Addr>, size: map<Addr, nat>)

  ghost predicate BlockOk(f: FreeList, k: nat)
    requires k < |f.blocks|
  {
    f.blocks[k] > 0 && f.blocks[k] != f.head && f.blocks[k] in f.size && f.size[f.blocks[k]] > 0
  }

  ghost predicate Before(f: FreeList, i: nat, j: nat)
    requires i < |f.blocks| && j < |f.blocks|
  {
    f.blocks[i] in f.size && f.blocks[i] + f.size[f.blocks[i]] < f.blocks[j]
  }

  ghost predicate ListOk(f: FreeList) {
    && f.head > 0
    && (forall k: nat {:trigger BlockOk(f, k)} {:trigger f.blocks[k]} :: k < |f.blocks| ==> BlockOk(f, k))
    && forall i: nat, j: nat {:trigger Before(f, i, j)} :: i < j < |f.blocks| ==> Before(f, i, j)
  }

  function Size(f: FreeList, k: nat): nat
    requires k < |f.blocks|
  {
    if f.blocks[k] in f.size then f.size[f.blocks[k]] else 0
  }

  /** Node 0 is the sentinel, node k the k-th block. */
  function Node(f: FreeList, k: nat): Addr
    requires k <= |f.blocks|
  {
    if k == 0 then f.head else f.blocks[k - 1]
  }

  /** The size of the largest of the first `n` blocks. */
  function Max(f: FreeList, n: nat): nat
    requires n <= |f.blocks|
  {
    if n == 0 then 0 else if Size(f, n - 1) > Max(f, n - 1) then Size(f, n - 1) else Max(f, n - 1)
  }

  /** The predecessors of the strict size records among the first `n` blocks. */
  function Records(f: FreeList, n: nat): seq<Addr>
    requires n <= |f.blocks|
  {
    if n == 0 then [] else Records(f, n - 1) + if Size(f, n - 1) > Max(f, n - 1) then [Node(f, n - 1)] else []
  }

  // ---------------------------------------------------------------- records

  lemma {:induction false} MaxBound(f: FreeList, n: nat, j: nat)
    requires j < n <= |f.blocks|
    ensures Size(f, j) <= Max(f, n)
  {
    if j < n - 1 { MaxBound(f, n - 1, j); }
  }

  lemma {:induction false} MaxBelow(f: FreeList, n: nat, w: nat)
    requires n <= |f.blocks| && w > 0 && forall j: nat :: j < n ==> Size(f, j) < w
    ensures Max(f, n) < w
  {
    if n > 0 { MaxBelow(f, n - 1, w); }
  }

  /** Blocks that are no larger than those before add no records. */
  lemma {:induction false} Flat(f: FreeList, n: nat, k: nat)
    requires n <= k <= |f.blocks| && forall j: nat :: n <= j < k ==> Size(f, j) <= Max(f, n)
    ensures Max(f, k) == Max(f, n) && Records(f, k) == Records(f, n)
  {
    if n < k { Flat(f, n, k - 1); }
  }

  /** What the first blocks are decides the records among them. */
  lemma {:induction false} SamePrefix(f: FreeList, g: FreeList, n: nat)
    requires n <= |f.blocks| && n <= |g.blocks| && f.head == g.head
    requires forall j: nat :: j < n ==> g.blocks[j] == f.blocks[j] && Size(g, j) == Size(f, j)
    ensures Max(g, n) == Max(f, n) && Records(g, n) == Records(f, n)
  {
    if n > 0 { SamePrefix(f, g, n - 1); }
  }

  lemma {:induction false} PrefixOf(f: FreeList, j: nat, n: nat)
    requires j <= n <= |f.blocks|
    ensures |Records(f, j)| <= |Records(f, n)| && Records(f, n)[..|Records(f, j)|] == Records(f, j)
            && Max(f, j) <= Max(f, n)
  {
    if j < n { PrefixOf(f, j, n - 1); }
  }

  /** A record and its place in the table. */
  lemma RecordIn(f: FreeList, j: nat, n: nat)
    requires j < n <= |f.blocks| && Size(f, j) > Max(f, j)
    ensures |Records(f, j)| < |Records(f, n)| && Records(f, n)[|Records(f, j)|] == Node(f, j)
    ensures Records(f, n)[..|Records(f, j)|] == Records(f, j)
  {
    PrefixOf(f, j, n);
    PrefixOf(f, j + 1, n);
    var r := Records(f, n)[..|Records(f, j + 1)|];
    assert r == Records(f, j) + [Node(f, j)];
    assert Records(f, n)[|Records(f, j)|] == r[|Records(f, j)|];
  }

  /** What an entry of the table stands for. */
  lemma {:induction false} EntryAt(f: FreeList, n: nat, i: nat) returns (j: nat)
    requires n <= |f.blocks| && i < |Records(f, n)|
    ensures j < n && Size(f, j) > Max(f, j) && i == |Records(f, j)| && Records(f, n)[i] == Node(f, j)
            && Records(f, n)[..i] == Records(f, j)
    decreases n
  {
    if i < |Records(f, n - 1)| {
      j := EntryAt(f, n - 1, i);
      assert Records(f, n)[..i] == Records(f, n - 1)[..i];
    } else {
      j := n - 1;
    }
  }

  /** The last record is the largest block. */
  lemma {:induction false} LastIsMax(f: FreeList, n: nat) returns (x: nat)
    requires ListOk(f) && 0 < n <= |f.blocks|
    ensures x < n && Max(f, n) == Size(f, x) > Max(f, x) && |Records(f, x)| == |Records(f, n)| - 1
            && Records(f, n)[|Records(f, x)|] == Node(f, x)
    ensures forall j: nat :: x < j < n ==> Size(f, j) <= Size(f, x)
  {
    assert BlockOk(f, n - 1);
    if Size(f, n - 1) > Max(f, n - 1) {
      x := n - 1;
    } else {
      assert n - 1 > 0;
      x := LastIsMax(f, n - 1);
    }
  }

  // ---------------------------------------------------------------- searching

  /** The naive search: the first block that is large enough, or the length of the list. */
  function FirstFit(f: FreeList, w: nat, from: nat): (k: nat)
    requires from <= |f.blocks|
    ensures from <= k <= |f.blocks| && (k < |f.blocks| ==> Size(f, k) >= w)
            && forall j: nat :: from <= j < k ==> Size(f, j) < w
    decreases |f.blocks| - from
  {
    if from == |f.blocks| then from else if Size(f, from) >= w then from else FirstFit(f, w, from + 1)
  }

  lemma FirstFitIs(f: FreeList, w: nat, k: nat)
    requires k < |f.blocks| && Size(f, k) >= w && forall j: nat :: j < k ==> Size(f, j) < w
    ensures FirstFit(f, w, 0) == k
  {
  }

  ghost predicate SmallerThan(f: FreeList, table: seq<Addr>, i: nat, w: nat) {
    forall j: nat, x: nat {:trigger table[j], Node(f, x)} :: j < i && j < |table| && x < |f.blocks| && table[j] == Node(f, x) ==> Size(f, x) < w
  }

  /** If the entries before `i` stand for smaller blocks and entry `i` does not, the block of entry `i` is
      the first that fits. */
  lemma FoundInTable(f: FreeList, n: nat, i: nat, w: nat) returns (k: nat)
    requires ListOk(f) && n <= |f.blocks| && i < |Records(f, n)| && w > 0 && SmallerThan(f, Records(f, n), i, w)
    ensures k < n && Records(f, n)[i] == Node(f, k) && |Records(f, k)| == i && Size(f, k) > Max(f, k)
            && Records(f, n)[..i] == Records(f, k)
    ensures Size(f, k) >= w ==> FirstFit(f, w, 0) == k
  {
    k := EntryAt(f, n, i);
    if k > 0 {
      var x := LastIsMax(f, k);
      assert Records(f, n)[i - 1] == Records(f, n)[..i][i - 1] == Node(f, x);
    }
    forall j: nat | j < k ensures Size(f, j) <= Max(f, k) { MaxBound(f, k, j); }
  }

  /** If all entries stand for smaller blocks, so are all blocks the table covers. */
  lemma NotInTable(f: FreeList, n: nat, w: nat)
    requires ListOk(f) && n <= |f.blocks| && w > 0 && SmallerThan(f, Records(f, n), |Records(f, n)|, w)
    ensures Max(f, n) < w && forall j: nat :: j < n ==> Size(f, j) < w
  {
    if n > 0 { var x := LastIsMax(f, n); }
    forall j: nat | j < n ensures Size(f, j) <= Max(f, n) { MaxBound(f, n, j); }
  }

  // ---------------------------------------------------------------- changing one block

  /** The list with block `k` taken out, or with block `k` reduced. */
  function Without(f: FreeList, k: nat): FreeList
    requires k < |f.blocks|
  {
    f.(blocks := f.blocks[..k] + f.blocks[k + 1..], size := f.size[f.blocks[k] := 0])
  }

  function Reduced(f: FreeList, k: nat, sz: nat): FreeList
    requires k < |f.blocks|
  {
    f.(size := f.size[f.blocks[k] := sz])
  }

  /** Naive first-fit allocation of `wo` words from block `k`: a block that is at most one word larger is
      taken out of the list, a larger one loses words at its end. */
  function Carved(f: FreeList, k: nat, wo: nat): FreeList
    requires k < |f.blocks| && Size(f, k) >= wo
  {
    if Size(f, k) < wo + 2 then Without(f, k) else Reduced(f, k, Size(f, k) - (wo + 1))
  }

  lemma SameNode(f: FreeList, i: nat, j: nat)
    requires ListOk(f) && i <= |f.blocks| && j <= |f.blocks|
    ensures Node(f, i) == Node(f, j) <==> i == j
  {
    if i > 0 { assert BlockOk(f, i - 1); }
    if j > 0 { assert BlockOk(f, j - 1); }
    if 0 < i < j { assert Before(f, i - 1, j - 1); }
    if 0 < j < i { assert Before(f, j - 1, i - 1); }
  }

  lemma WithoutOk(f: FreeList, k: nat)
    requires ListOk(f) && k < |f.blocks|
    ensures var g := Without(f, k);
            && ListOk(g) && |g.blocks| == |f.blocks| - 1
            && (forall j: nat :: j < k ==> g.blocks[j] == f.blocks[j] && Size(g, j) == Size(f, j))
            && (forall j: nat :: k <= j < |g.blocks| ==> g.blocks[j] == f.blocks[j + 1] && Size(g, j) == Size(f, j + 1))
  {
    var g := Without(f, k);
    forall j: nat | j < |g.blocks| ensures BlockOk(g, j) && g.blocks[j] == f.blocks[if j < k then j else j + 1] && g.blocks[j] != f.blocks[k] {
      var x := if j < k then j else j + 1;
      assert BlockOk(f, x);
      SameNode(f, x + 1, k + 1);
    }
    forall i: nat, j: nat | i < j < |g.blocks| ensures Before(g, i, j) {
      assert Before(f, if i < k then i else i + 1, if j < k then j else j + 1);
    }
  }

  lemma ReducedOk(f: FreeList, k: nat, sz: nat)
    requires ListOk(f) && k < |f.blocks| && 0 < sz <= Size(f, k)
    ensures var g := Reduced(f, k, sz); ListOk(g) && forall j: nat :: j < |f.blocks| ==> Size(g, j) == if j == k then sz else Size(f, j)
  {
    var g := Reduced(f, k, sz);
    forall j: nat | j < |f.blocks| ensures BlockOk(g, j) && Size(g, j) == if j == k then sz else Size(f, j) {
      assert BlockOk(f, j);
      SameNode(f, j + 1, k + 1);
    }
    forall i: nat, j: nat | i < j < |g.blocks| ensures Before(g, i, j) {
      assert Before(f, i, j);
    }
  }

  // ---------------------------------------------------------------- the tail of the table

  /** From block `c` of `f` and block `c - d` of `g` on, the lists are the same. */
  ghost predicate SameTail(f: FreeList, g: FreeList, c: nat, d: nat) {
    && d <= c && |g.blocks| + d == |f.blocks|
    && forall m: nat {:trigger f.blocks[m]} :: c <= m < |f.blocks| ==> g.blocks[m - d] == f.blocks[m] && Size(g, m - d) == Size(f, m)
  }

  lemma {:induction false} TailMax(f: FreeList, g: FreeList, c: nat, d: nat, n: nat)
    requires SameTail(f, g, c, d) && c < n <= |f.blocks| && Size(f, c) > Max(f, c) && Size(f, c) > Max(g, c - d)
    ensures Max(g, n - d) == Max(f, n)
  {
    assert g.blocks[n - 1 - d] == f.blocks[n - 1];
    if n > c + 1 { TailMax(f, g, c, d, n - 1); }
  }

  lemma DropPrefix(s: seq<Addr>, t: seq<Addr>, r: nat)
    requires r <= |s|
    ensures (s + t)[r..] == s[r..] + t
  {
  }

  /** A record of both lists: the records behind it are the same. */
  lemma {:induction false} TailSame(f: FreeList, g: FreeList, c: nat, d: nat, n: nat)
    requires SameTail(f, g, c, d) && c < n <= |f.blocks| && Size(f, c) > Max(f, c) && Size(f, c) > Max(g, c - d)
    ensures |Records(f, c)| < |Records(f, n)|
    ensures Records(g, n - d) == Records(g, c - d) + [Node(g, c - d)] + Records(f, n)[|Records(f, c)| + 1..]
  {
    assert g.blocks[c - d] == f.blocks[c];
    var r := |Records(f, c)| + 1;
    if n == c + 1 {
      assert Records(f, n)[r..] == [];
    } else {
      TailSame(f, g, c, d, n - 1);
      TailMax(f, g, c, d, n - 1);
      LastOfTail(f, g, c, d, n);
      DropPrefix(Records(f, n - 1), if Size(f, n - 1) > Max(f, n - 1) then [Node(f, n - 1)] else [], r);
    }
  }

  lemma LastOfTail(f: FreeList, g: FreeList, c: nat, d: nat, n: nat)
    requires SameTail(f, g, c, d) && c + 1 < n <= |f.blocks|
    ensures Size(g, n - 1 - d) == Size(f, n - 1) && Node(g, n - 1 - d) == Node(f, n - 1)
  {
    assert f.blocks[n - 1] == g.blocks[n - 1 - d] && f.blocks[n - 2] == g.blocks[n - 2 - d];
  }

  // ---------------------------------------------------------------- flp and beyond

  const FLP_MAX: nat := 1000

  /** flp covers the first `n` blocks, the last of which is a record. */
  ghost predicate TableOk(f: FreeList, flp: seq<Addr>, n: nat) {
    n <= |f.blocks| && flp == Records(f, n) && (n > 0 ==> Size(f, n - 1) > Max(f, n - 1))
  }

  /** From there to `beyond`, which is 0 or block `b`, there is no other record. */
  ghost predicate BeyondOk(f: FreeList, beyond: Addr, n: nat, b: nat) {
    n <= |f.blocks| && (beyond != 0 ==> 0 < n <= b + 1 <= |f.blocks| && beyond == f.blocks[b] && forall j: nat :: n <= j <= b ==> Size(f, j) <= Size(f, n - 1))
  }

  ghost predicate IndexOk(f: FreeList, flp: seq<Addr>, beyond: Addr) {
    exists n: nat, b: nat :: TableOk(f, flp, n) && BeyondOk(f, beyond, n, b)
  }

  ghost predicate SameUpTo(f: FreeList, g: FreeList, p: nat) {
    && p <= |f.blocks| && p <= |g.blocks| && f.head == g.head
    && forall j: nat {:trigger g.blocks[j]} {:trigger f.blocks[j]} {:trigger Size(g, j)} :: j < p ==> g.blocks[j] == f.blocks[j] && Size(g, j) == Size(f, j)
  }

  /** Lists that agree on their first `p` blocks, which the index does not go beyond. */
  lemma IndexStays(f: FreeList, g: FreeList, flp: seq<Addr>, beyond: Addr, n: nat, b: nat, p: nat)
    requires TableOk(f, flp, n) && BeyondOk(f, beyond, n, b) && n <= p && (beyond != 0 ==> b < p)
    requires SameUpTo(f, g, p)
    ensures TableOk(g, flp, n) && BeyondOk(g, beyond, n, b) && IndexOk(g, flp, beyond)
  {
    SamePrefix(f, g, n);
    if n > 0 { SamePrefix(f, g, n - 1); }
    assert TableOk(g, flp, n) && BeyondOk(g, beyond, n, b);
  }

  /** The last record taken out of the table, from block `k` to which there is none but those before. */
  lemma DropLast(f: FreeList, k: nat, beyond: Addr, b: nat)
    requires ListOk(f) && k <= b + 1 <= |f.blocks| && (beyond != 0 ==> k > 0 && beyond == f.blocks[b])
    requires forall j: nat :: k <= j <= b ==> Size(f, j) <= Max(f, k)
    ensures IndexOk(f, Records(f, k), beyond)
  {
    if k == 0 {
      assert TableOk(f, Records(f, k), 0) && BeyondOk(f, beyond, 0, 0);
    } else {
      var x := LastIsMax(f, k);
      LastTable(f, k, x);
      forall j: nat | x + 1 <= j <= b ensures Size(f, j) <= Size(f, x) { }
      assert BeyondOk(f, beyond, x + 1, b);
    }
  }

  lemma LastTable(f: FreeList, k: nat, x: nat)
    requires x < k <= |f.blocks| && Size(f, x) > Max(f, x) && forall j: nat :: x < j < k ==> Size(f, j) <= Size(f, x)
    ensures TableOk(f, Records(f, k), x + 1)
  {
    Flat(f, x + 1, k);
  }

  // ---------------------------------------------------------------- truncation

  /** ff_truncate_flp keeps the entries whose records lie below `changed`. */
  lemma Truncated(f: FreeList, flp: seq<Addr>, beyond: Addr, n: nat, b: nat, t: nat, changed: Addr) returns (n': nat)
    requires ListOk(f) && TableOk(f, flp, n) && BeyondOk(f, beyond, n, b) && t <= |flp|
    requires forall x: nat :: x < n && t > 0 && flp[t - 1] == Node(f, x) ==> f.blocks[x] < changed
    requires forall x: nat :: x < n && t < |flp| && flp[t] == Node(f, x) ==> f.blocks[x] >= changed
    ensures TableOk(f, flp[..t], n') && BeyondOk(f, if beyond >= changed then 0 else beyond, n', b)
            && (n' > 0 ==> f.blocks[n' - 1] < changed)
  {
    if t < |flp| {
      var y := EntryAt(f, n, t);
      NothingBeyond(f, beyond, n, b, y, changed);
      if t == 0 {
        n' := 0;
      } else {
        n' := TableCut(f, flp, n, t);
      }
    } else {
      assert flp[..t] == flp;
      n' := n;
      if n > 0 { LastEntry(f, n); }
    }
  }

  lemma NothingBeyond(f: FreeList, beyond: Addr, n: nat, b: nat, y: nat, changed: Addr)
    requires ListOk(f) && BeyondOk(f, beyond, n, b) && y < n && f.blocks[y] >= changed
    ensures beyond != 0 ==> beyond >= changed
  {
    if beyond != 0 && y < b { assert Before(f, y, b); }
  }

  lemma TableCut(f: FreeList, flp: seq<Addr>, n: nat, t: nat) returns (n': nat)
    requires TableOk(f, flp, n) && 0 < t <= |flp|
    ensures 0 < n' <= n && TableOk(f, flp[..t], n') && flp[t - 1] == Node(f, n' - 1)
  {
    var x := EntryAt(f, n, t - 1);
    n' := x + 1;
    assert flp[..t] == flp[..t - 1] + [flp[t - 1]];
  }

  lemma LastEntry(f: FreeList, n: nat)
    requires 0 < n <= |f.blocks| && Size(f, n - 1) > Max(f, n - 1)
    ensures Records(f, n) != [] && Records(f, n)[|Records(f, n)| - 1] == Node(f, n - 1)
  {
  }
}
