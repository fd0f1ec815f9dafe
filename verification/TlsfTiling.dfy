/** Block headers and boundary tags of src/tlsf.c: how blocks tile the pools, and what marking,
    splitting and absorbing blocks does to the tiling.

    Memory is a sequence of 8-byte words; a pointer is a word index.  The header of block `b` is the
    words b (prev_phys_block, inside the previous block), b + 1 (size and flags), b + 2 (next_free) and
    b + 3 (prev_free); the payload starts at b + 2. */
module TlsfTiling {
  import opened Bits
  import opened TlsfMapping

  // ---------------------------------------------------------------- the size word

  /** The two flag bits of a size word. */
  function Flags(w: nat): (r: nat)
    ensures r < 4 && r <= w
  {
    if w < 4 then w else Flags(w - 4)
  }

  function BlockSize(w: nat): nat { w - Flags(w) }

  predicate FreeBit(w: nat) { Flags(w) == 1 || Flags(w) == 3 }

  predicate PrevFreeBit(w: nat) { Flags(w) >= 2 }

  function WithSize(w: nat, size: nat): nat { size + Flags(w) }

  function WithFree(w: nat): nat { if FreeBit(w) then w else w + 1 }

  function WithUsed(w: nat): nat { if FreeBit(w) then w - 1 else w }

  function WithPrevFree(w: nat): nat { if PrevFreeBit(w) then w else w + 2 }

  function WithPrevUsed(w: nat): nat { if PrevFreeBit(w) then w - 2 else w }

  lemma FlagsAreLowBits(w: nat)
    ensures Flags(w) == w % 4
    ensures (FreeBit(w) <==> w % 2 == 1) && (PrevFreeBit(w) <==> (w / 2) % 2 == 1)
  {
    var q := SizeIsMultiple(w);
    LowBits(q, Flags(w));
  }

  lemma LowBits(q: nat, f: nat)
    requires f < 4
    ensures (4 * q + f) % 4 == f && (4 * q + f) % 2 == f % 2 && ((4 * q + f) / 2) % 2 == f / 2
  {
    assert (4 * q + f) / 2 == 2 * q + f / 2;
  }

  /** A multiple of 4 adds nothing to the flags. */
  lemma {:induction false} FlagsOf(w: nat, q: nat)
    ensures Flags(w + 4 * q) == Flags(w)
    decreases q
  {
    if q > 0 {
      FlagsOf(w, q - 1);
      assert Flags(w + 4 * q) == Flags(w + 4 * q - 4);
    }
  }

  lemma {:induction false} SizeIsMultiple(w: nat) returns (q: nat)
    ensures BlockSize(w) == 4 * q
    decreases w
  {
    if w >= 4 {
      q := SizeIsMultiple(w - 4);
      q := q + 1;
    } else {
      q := 0;
    }
  }

  lemma FlagsParts(q: nat, f: nat)
    requires f < 4
    ensures Flags(4 * q + f) == f && BlockSize(4 * q + f) == 4 * q
  {
    FlagsOf(f, q);
  }

  /** The arithmetic above is what the masks of the code compute. */
  lemma FlagArithmetic(w: nat, size: nat)
    requires w < SIZE_T && size < SIZE_T && size % 4 == 0
    ensures Pow2(64) == SIZE_T
    ensures And(w, Not(64, 3)) == BlockSize(w)
    ensures (And(w, 1) != 0 <==> FreeBit(w)) && (And(w, 2) != 0 <==> PrevFreeBit(w))
    ensures Or(w, 1) == WithFree(w) && And(w, Not(64, 1)) == WithUsed(w)
    ensures Or(w, 2) == WithPrevFree(w) && And(w, Not(64, 2)) == WithPrevUsed(w)
    ensures Or(size, And(w, 3)) == WithSize(w, size)
  {
    Pow64();
    ClearLowBits(w);
    ClearSecondBit(w);
    TestBits(w);
    SetBits(w);
    ReplaceSize(w, size);
  }

  lemma ReplaceSize(w: nat, size: nat)
    requires size % 4 == 0
    ensures Or(size, And(w, 3)) == WithSize(w, size)
  {
    FlagsAreLowBits(w);
    AndThree(w);
    OrLow(size, w % 4);
  }

  lemma ClearLowBits(w: nat)
    requires w < SIZE_T && Pow2(64) == SIZE_T
    ensures And(w, Not(64, 3)) == BlockSize(w) && And(w, Not(64, 1)) == WithUsed(w)
  {
    FlagsAreLowBits(w);
    AndMask(64, 2, w);
    AndMask(64, 1, w);
    assert Pow2(2) == 4 && Pow2(1) == 2;
  }

  lemma TestBits(w: nat)
    ensures And(w, 1) != 0 <==> FreeBit(w)
    ensures And(w, 2) != 0 <==> PrevFreeBit(w)
  {
    FlagsAreLowBits(w);
    AndZero(w / 2);
    AndZero(w / 4);
    assert And(w / 2, 1) == 2 * And(w / 4, 0) + (w / 2) % 2;
  }

  lemma SetBits(w: nat)
    ensures Or(w, 1) == WithFree(w) && Or(w, 2) == WithPrevFree(w)
  {
    FlagsAreLowBits(w);
    OrZero(w / 2);
    OrZero(w / 4);
    assert Or(w / 2, 1) == 2 * Or(w / 4, 0) + 1;
  }

  lemma AndZero(x: nat)
    ensures And(x, 0) == 0 && And(0, x) == 0
  {
  }

  lemma {:induction false} OrZero(x: nat)
    ensures Or(x, 0) == x
  {
    if x > 0 { OrZero(x / 2); }
  }

  lemma AndThree(w: nat)
    ensures And(w, 3) == w % 4
  {
    AndZero(w / 4);
    assert And(w / 2, 1) == 2 * And(w / 4, 0) + (w / 2) % 2;
  }

  lemma OrLow(size: nat, f: nat)
    requires size % 4 == 0 && f < 4
    ensures Or(size, f) == size + f
  {
    OrZero(size / 4);
    assert Or(size / 2, f / 2) == 2 * Or(size / 4, 0) + f / 2;
  }

  lemma ClearSecondBit(w: nat)
    requires w < SIZE_T && Pow2(64) == SIZE_T
    ensures And(w, Not(64, 2)) == WithPrevUsed(w)
  {
    assert Pow2(64) == 2 * Pow2(63) && Pow2(63) == 2 * Pow2(62);
    ClearSecond(w, 62, Not(64, 2));
  }

  lemma ClearSecond(w: nat, k: nat, n: nat)
    requires w / 4 < Pow2(k) && n == 2 * (2 * (Pow2(k) - 1)) + 1
    ensures And(w, n) == WithPrevUsed(w)
  {
    var x := SizeIsMultiple(w);
    var f := Flags(w);
    HalvesOf(w, x, f);
    AndOnes(k, x);
    FlagsParts(x, f);
    AndOdd(w, 2 * (Pow2(k) - 1));
    AndEven(w / 2, Pow2(k) - 1);
  }

  lemma HalvesOf(w: nat, x: nat, f: nat)
    requires w == 4 * x + f && f < 4
    ensures w / 4 == x && w / 2 == 2 * x + f / 2 && (w / 2) / 2 == x && w % 2 == f % 2
  {
  }

  lemma AndOdd(a: nat, b: nat)
    ensures And(a, 2 * b + 1) == 2 * And(a / 2, b) + a % 2
  {
    if a == 0 { AndZero(b); }
  }

  lemma AndEven(a: nat, b: nat)
    ensures And(a, 2 * b) == 2 * And(a / 2, b)
  {
    if a == 0 || b == 0 { AndZero(b); AndZero(a); AndZero(a / 2); }
  }

  // ---------------------------------------------------------------- the tiling

  /** The intended layout: payload words of every block (0 for the sentinel that closes a pool), which
      blocks are free, and for every pool its first block and its sentinel. */
  datatype Shape = Shape(span: map<nat, nat>, free: set<nat>, pools: map<nat, nat>)

  function Next(g: Shape, b: nat): nat
    requires b in g.span
  {
    b + 1 + g.span[b]
  }

  ghost predicate InPool(g: Shape, b: nat) {
    exists s :: s in g.pools && s <= b <= g.pools[s]
  }

  /** One block of the tiling: legal size, followed by a block unless it is a sentinel. */
  ghost predicate Tile(g: Shape, len: nat, b: nat) {
    && b in g.span && 4 <= b && b + 1 < len && 8 * g.span[b] < BLOCK_SIZE_MAX && InPool(g, b)
    && (g.span[b] == 0 ==> b !in g.free)
    && (g.span[b] > 0 ==>
          3 <= g.span[b] && Next(g, b) in g.span && Next(g, b) + 1 < len && Next(g, b) !in g.pools)
  }

  ghost predicate Disjoint(g: Shape) {
    forall b, c :: b in g.span && c in g.span && b < c ==> b + 1 + g.span[b] <= c
  }

  ghost predicate Pool(g: Shape, s: nat) {
    && s in g.pools && s in g.span && g.pools[s] in g.span && s <= g.pools[s]
    && g.span[g.pools[s]] == 0 && 8 * (g.pools[s] - s - 1) < BLOCK_SIZE_MAX
    && (forall b :: b in g.span && s <= b < g.pools[s] ==> g.span[b] > 0)
  }

  ghost predicate AllTiles(g: Shape, len: nat) {
    && g.free <= g.span.Keys
    && forall b {:trigger Tile(g, len, b)} :: b in g.span ==> Tile(g, len, b)
  }

  ghost predicate AllPools(g: Shape) {
    forall s {:trigger Pool(g, s)} :: s in g.pools ==> Pool(g, s)
  }

  /** Blocks tile the pools. */
  ghost predicate Tiles(g: Shape, len: nat) {
    AllTiles(g, len) && Separate(g) && AllPools(g)
  }

  ghost predicate Ahead(g: Shape, b: nat) {
    b in g.span && forall c :: c in g.span && b < c ==> Next(g, b) <= c
  }

  /** The same as Disjoint, one block at a time. */
  ghost predicate Separate(g: Shape) {
    forall b {:trigger Ahead(g, b)} :: b in g.span ==> Ahead(g, b)
  }

  lemma DisjointIff(g: Shape)
    ensures Separate(g) <==> Disjoint(g)
  {
    if Separate(g) {
      forall b, c | b in g.span && c in g.span && b < c ensures b + 1 + g.span[b] <= c { assert Ahead(g, b); }
    }
    forall b | b in g.span ensures Disjoint(g) ==> Ahead(g, b) { }
  }

  /** The prev-free bit of a block is backed by a free block that ends where it starts. */
  ghost predicate TagBehind(m: seq<nat>, g: Shape, b: nat)
    requires b + 1 < |m|
  {
    PrevFreeBit(m[b + 1]) ==> m[b] in g.free && m[b] in g.span && m[b] + 1 + g.span[m[b]] == b
  }

  /** The block behind knows whether this one is free, and where it starts if it is. */
  ghost predicate TagAhead(m: seq<nat>, g: Shape, b: nat)
    requires b in g.span
  {
    g.span[b] > 0 ==>
      && Next(g, b) + 1 < |m|
      && (PrevFreeBit(m[Next(g, b) + 1]) <==> b in g.free)
      && (b in g.free ==> m[Next(g, b)] == b)
  }

  /** The words of one block agree with the layout: size, both flags, and the boundary tags. */
  ghost predicate Cell(m: seq<nat>, g: Shape, b: nat) {
    && b in g.span && b + 1 < |m|
    && BlockSize(m[b + 1]) == 8 * g.span[b]
    && (FreeBit(m[b + 1]) <==> b in g.free)
    && TagBehind(m, g, b) && TagAhead(m, g, b)
  }

  ghost predicate Words(m: seq<nat>, g: Shape) {
    forall b {:trigger Cell(m, g, b)} :: b in g.span ==> Cell(m, g, b)
  }

  ghost predicate Tiling(m: seq<nat>, g: Shape) {
    Tiles(g, |m|) && Words(m, g)
  }

  /** No two neighbours are both free. */
  ghost predicate Lone(g: Shape, b: nat) {
    b in g.span && Next(g, b) !in g.free
  }

  ghost predicate Coalesced(g: Shape) {
    forall b {:trigger Lone(g, b)} :: b in g.free ==> Lone(g, b)
  }

  // ---------------------------------------------------------------- layouts after an operation

  function Freed(g: Shape, b: nat): Shape { g.(free := g.free + {b}) }

  function Taken(g: Shape, b: nat): Shape { g.(free := g.free - {b}) }

  /** `b` keeps `k` words, the rest becomes a free block. */
  function Split(g: Shape, b: nat, k: nat): Shape
    requires b in g.span && k + 1 <= g.span[b]
  {
    g.(span := g.span[b := k][b + 1 + k := g.span[b] - k - 1], free := g.free + {b + 1 + k})
  }

  /** `b` takes in the block behind it. */
  function Absorbed(g: Shape, b: nat): Shape
    requires b in g.span && Next(g, b) in g.span && Next(g, b) > b
  {
    var q := Next(g, b);
    g.(span := (g.span - {q})[b := g.span[b] + 1 + g.span[q]], free := g.free - {q})
  }

  /** Marking a block changes neither sizes nor pools. */
  lemma MarkedTile(g: Shape, g': Shape, len: nat, x: nat)
    requires Tile(g, len, x) && g'.span == g.span && g'.pools == g.pools
    requires g.span[x] == 0 ==> x !in g'.free
    ensures Tile(g', len, x)
  {
    var s :| s in g.pools && s <= x <= g.pools[s];
    assert s in g'.pools;
  }

  lemma MarkedAllTiles(g: Shape, g': Shape, len: nat, b: nat)
    requires AllTiles(g, len) && b in g.span && g.span[b] > 0 && (g' == Freed(g, b) || g' == Taken(g, b))
    ensures AllTiles(g', len)
  {
    forall x | x in g'.span ensures Tile(g', len, x) {
      assert Tile(g, len, x);
      MarkedTile(g, g', len, x);
    }
  }

  lemma MarkedAllPools(g: Shape, g': Shape)
    requires AllPools(g) && g'.span == g.span && g'.pools == g.pools
    ensures AllPools(g')
  {
    forall s | s in g'.pools ensures Pool(g', s) { assert Pool(g, s); }
  }

  lemma MarkedTiles(g: Shape, g': Shape, len: nat, b: nat)
    requires Tiles(g, len) && b in g.span && g.span[b] > 0 && (g' == Freed(g, b) || g' == Taken(g, b))
    ensures Tiles(g', len)
  {
    DisjointIff(g);
    DisjointIff(g');
    MarkedAllTiles(g, g', len, b);
    MarkedAllPools(g, g');
  }

  lemma SplitDisjoint(g: Shape, b: nat, k: nat)
    requires Disjoint(g) && b in g.span && k + 1 <= g.span[b]
    ensures Disjoint(Split(g, b, k))
    ensures b + 1 + k !in g.span
  {
    var g' := Split(g, b, k);
    forall x, y | x in g'.span && y in g'.span && x < y ensures x + 1 + g'.span[x] <= y {
    }
  }

  lemma SplitPool(g: Shape, b: nat, k: nat, s: nat)
    requires Pool(g, s) && Disjoint(g) && b in g.span && 0 < k && k + 1 < g.span[b] && b + 1 + k !in g.span
    ensures Pool(Split(g, b, k), s)
  {
  }

  lemma SplitTile(g: Shape, len: nat, b: nat, k: nat, x: nat)
    requires Tile(g, len, x) && b in g.span && 3 <= k && k + 4 <= g.span[b]
    requires b + 1 + k !in g.span && b + 1 + k !in g.pools
    ensures Tile(Split(g, b, k), len, x)
  {
    var s :| s in g.pools && s <= x <= g.pools[s];
    assert s in Split(g, b, k).pools;
  }

  lemma SplitRest(g: Shape, len: nat, b: nat, k: nat)
    requires Tile(g, len, b) && Disjoint(g) && 3 <= k && k + 4 <= g.span[b]
    requires AllPools(g)
    ensures Tile(Split(g, b, k), len, b + 1 + k)
  {
    var s :| s in g.pools && s <= b <= g.pools[s];
    assert Pool(g, s);
    assert s in Split(g, b, k).pools && s <= b + 1 + k <= g.pools[s];
  }

  lemma SplitKeys(g: Shape, b: nat, k: nat)
    requires g.free <= g.span.Keys && b in g.span && k + 1 <= g.span[b]
    ensures Split(g, b, k).free <= Split(g, b, k).span.Keys
  {
  }

  lemma SplitAllTiles(g: Shape, len: nat, b: nat, k: nat)
    requires AllTiles(g, len) && Disjoint(g) && AllPools(g) && b in g.span && 3 <= k && k + 4 <= g.span[b]
    requires b + 1 + k !in g.span && b + 1 + k !in g.pools
    ensures AllTiles(Split(g, b, k), len)
  {
    SplitKeys(g, b, k);
    forall x | x in Split(g, b, k).span ensures Tile(Split(g, b, k), len, x) { SplitAnyTile(g, len, b, k, x); }
  }

  lemma SplitAnyTile(g: Shape, len: nat, b: nat, k: nat, x: nat)
    requires AllTiles(g, len) && Disjoint(g) && AllPools(g) && b in g.span && 3 <= k && k + 4 <= g.span[b]
    requires b + 1 + k !in g.span && b + 1 + k !in g.pools && x in Split(g, b, k).span
    ensures Tile(Split(g, b, k), len, x)
  {
    assert Tile(g, len, b);
    if x == b + 1 + k {
      SplitRest(g, len, b, k);
    } else {
      assert Tile(g, len, x);
      SplitTile(g, len, b, k, x);
    }
  }

  lemma SplitAllPools(g: Shape, b: nat, k: nat)
    requires Disjoint(g) && AllPools(g) && b in g.span && 0 < k && k + 1 < g.span[b] && b + 1 + k !in g.span
    ensures AllPools(Split(g, b, k))
  {
    forall s | s in Split(g, b, k).pools ensures Pool(Split(g, b, k), s) {
      assert Pool(g, s);
      SplitPool(g, b, k, s);
    }
  }

  lemma SplitTiles(g: Shape, len: nat, b: nat, k: nat)
    requires Tiles(g, len) && b in g.span && 3 <= k && k + 4 <= g.span[b]
    ensures Tiles(Split(g, b, k), len) && b + 1 + k !in g.span
  {
    DisjointIff(g);
    DisjointIff(Split(g, b, k));
    SplitDisjoint(g, b, k);
    assert b + 1 + k in g.pools ==> Pool(g, b + 1 + k);
    SplitAllTiles(g, len, b, k);
    SplitAllPools(g, b, k);
  }

  lemma AbsorbedDisjoint(g: Shape, b: nat)
    requires Disjoint(g) && b in g.span && Next(g, b) in g.span
    ensures Disjoint(Absorbed(g, b))
  {
    var g' := Absorbed(g, b);
    forall x, y | x in g'.span && y in g'.span && x < y ensures x + 1 + g'.span[x] <= y {
    }
  }

  lemma AbsorbedPool(g: Shape, b: nat, s: nat)
    requires Pool(g, s) && Disjoint(g) && b in g.span && g.span[b] > 0
    requires Next(g, b) in g.span && g.span[Next(g, b)] > 0 && Next(g, b) !in g.pools
    ensures Pool(Absorbed(g, b), s)
  {
  }

  lemma AbsorbedFits(g: Shape, len: nat, b: nat, s: nat)
    requires Tile(g, len, b) && Tile(g, len, Next(g, b)) && Disjoint(g) && Pool(g, s) && s <= b <= g.pools[s]
    requires g.span[b] > 0 && g.span[Next(g, b)] > 0
    ensures b < g.pools[s] && Next(g, Next(g, b)) <= g.pools[s]
    ensures 8 * (g.span[b] + 1 + g.span[Next(g, b)]) < BLOCK_SIZE_MAX
  {
    var q := Next(g, b);
    assert q <= g.pools[s];
  }

  lemma AbsorbedTile(g: Shape, len: nat, b: nat, x: nat)
    requires Tile(g, len, b) && Tile(g, len, Next(g, b)) && Tile(g, len, x) && Disjoint(g) && AllPools(g)
    requires g.span[b] > 0 && g.span[Next(g, b)] > 0 && x != Next(g, b)
    ensures Tile(Absorbed(g, b), len, x)
  {
    var s :| s in g.pools && s <= x <= g.pools[s];
    assert s in Absorbed(g, b).pools;
    if x == b {
      assert Pool(g, s);
      AbsorbedFits(g, len, b, s);
    } else if g.span[x] > 0 {
      AbsorbedOther(g, len, b, x);
    }
  }

  lemma AbsorbedOther(g: Shape, len: nat, b: nat, x: nat)
    requires Tile(g, len, b) && Tile(g, len, Next(g, b)) && Tile(g, len, x) && Disjoint(g)
    requires g.span[b] > 0 && x != Next(g, b) && x != b && g.span[x] > 0
    ensures Next(g, x) != Next(g, b)
  {
  }

  lemma AbsorbedAllTiles(g: Shape, len: nat, b: nat)
    requires AllTiles(g, len) && Disjoint(g) && AllPools(g) && b in g.span && g.span[b] > 0
    requires Next(g, b) in g.span && g.span[Next(g, b)] > 0
    ensures AllTiles(Absorbed(g, b), len)
  {
    assert Tile(g, len, b) && Tile(g, len, Next(g, b));
    forall x | x in Absorbed(g, b).span ensures Tile(Absorbed(g, b), len, x) {
      assert Tile(g, len, x);
      AbsorbedTile(g, len, b, x);
    }
  }

  lemma AbsorbedTiles(g: Shape, len: nat, b: nat)
    requires Tiles(g, len) && b in g.span && g.span[b] > 0
    requires Next(g, b) in g.span && g.span[Next(g, b)] > 0
    ensures Tiles(Absorbed(g, b), len)
  {
    DisjointIff(g);
    DisjointIff(Absorbed(g, b));
    assert Tile(g, len, b);
    AbsorbedDisjoint(g, b);
    AbsorbedAllTiles(g, len, b);
    forall s | s in g.pools ensures Pool(Absorbed(g, b), s) {
      assert Pool(g, s);
      AbsorbedPool(g, b, s);
    }
  }

  // ---------------------------------------------------------------- words after an operation

  /** Only the words at the given indices may differ. */
  ghost predicate Same(m: seq<nat>, m': seq<nat>, changed: set<nat>) {
    |m'| == |m| && forall i :: 0 <= i < |m| && i !in changed ==> m'[i] == m[i]
  }

  /** The size word `w'` has the size of `w` and the given flags. */
  predicate Retagged(w: nat, w': nat, free: bool, prevFree: bool) {
    Tagged(w', BlockSize(w), free, prevFree)
  }

  predicate Tagged(w: nat, size: nat, free: bool, prevFree: bool) {
    BlockSize(w) == size && FreeBit(w) == free && PrevFreeBit(w) == prevFree
  }

  /** block_mark_as_free: the next block gets the boundary tag and the prev-free bit. */
  ghost predicate MarkedFree(m: seq<nat>, m': seq<nat>, b: nat, n: nat) {
    && b + 1 < n && n + 1 < |m| && Same(m, m', {b + 1, n, n + 1}) && m'[n] == b
    && Retagged(m[n + 1], m'[n + 1], FreeBit(m[n + 1]), true)
    && Retagged(m[b + 1], m'[b + 1], true, PrevFreeBit(m[b + 1]))
  }

  ghost predicate MarkedUsed(m: seq<nat>, m': seq<nat>, b: nat, n: nat) {
    && b + 1 < n && n + 1 < |m| && Same(m, m', {b + 1, n + 1})
    && Retagged(m[n + 1], m'[n + 1], FreeBit(m[n + 1]), false)
    && Retagged(m[b + 1], m'[b + 1], false, PrevFreeBit(m[b + 1]))
  }

  /** A split of `b` into `k` words and a free rest, whose flags now agree with `b` whatever bits the
      payload held before. */
  ghost predicate SplitAt(m: seq<nat>, m': seq<nat>, b: nat, k: nat, n: nat, free: bool) {
    var rem := b + 1 + k;
    && rem + 3 < n && n + 1 < |m| && Same(m, m', {b + 1, rem, rem + 1, n, n + 1})
    && Tagged(m'[b + 1], 8 * k, free, PrevFreeBit(m[b + 1]))
    && Tagged(m'[rem + 1], 8 * (n - rem - 1), true, free) && m'[rem] == (if free then b else m[rem])
    && m'[n] == rem && Retagged(m[n + 1], m'[n + 1], FreeBit(m[n + 1]), true)
  }

  /** `b` absorbed the free block at `q`, whose next block is `n`. */
  ghost predicate AbsorbedAt(m: seq<nat>, m': seq<nat>, b: nat, q: nat, n: nat, free: bool) {
    && b + 1 < q && q + 1 < n && n + 1 < |m| && Same(m, m', {b + 1, n, n + 1})
    && Tagged(m'[b + 1], BlockSize(m[b + 1]) + BlockSize(m[q + 1]) + BLOCK_OVERHEAD, free, PrevFreeBit(m[b + 1]))
    && m'[n] == b && Retagged(m[n + 1], m'[n + 1], FreeBit(m[n + 1]), free)
  }

  /** Where a header word can lie relative to another block. */
  lemma Apart(g: Shape, len: nat, b: nat, x: nat)
    requires Disjoint(g) && Tile(g, len, b) && Tile(g, len, x) && x != b
    ensures x < b ==> x + 1 + g.span[x] <= b
    ensures b < x ==> Next(g, b) <= x
    ensures g.span[x] > 0 && g.span[b] > 0 ==> Next(g, x) != Next(g, b)
  {
  }

  /** The tag of a block is not one of the size words around `b`, and behind `b` it is the tag of `b`. */
  lemma TagIndex(m: seq<nat>, g: Shape, b: nat, x: nat)
    requires Disjoint(g) && Tile(g, |m|, b) && g.span[b] > 0 && Tile(g, |m|, Next(g, b)) && Tile(g, |m|, x)
    requires TagBehind(m, g, x) && PrevFreeBit(m[x + 1])
    ensures x != b + 1 && x != Next(g, b) + 1 && (x == Next(g, b) ==> m[x] == b)
  {
    var p, n := m[x], Next(g, b);
    assert p < n ==> p + 1 + g.span[p] <= n;
    assert p == n ==> g.span[p] > 0;
  }

  lemma FreeFacts(w: nat)
    ensures Retagged(w, WithFree(w), true, PrevFreeBit(w)) && Retagged(w, WithUsed(w), false, PrevFreeBit(w))
  {
    var q := SizeIsMultiple(w);
    FlagsParts(q, if FreeBit(w) then Flags(w) - 1 else Flags(w) + 1);
  }

  lemma PrevFreeFacts(w: nat)
    ensures Retagged(w, WithPrevFree(w), FreeBit(w), true) && Retagged(w, WithPrevUsed(w), FreeBit(w), false)
  {
    var q := SizeIsMultiple(w);
    FlagsParts(q, if PrevFreeBit(w) then Flags(w) - 2 else Flags(w) + 2);
  }

  lemma SizeFacts(w: nat, k: nat)
    ensures Tagged(WithSize(w, 8 * k), 8 * k, FreeBit(w), PrevFreeBit(w))
  {
    FlagsParts(2 * k, Flags(w));
  }

  lemma SumFacts(w: nat, k: nat)
    ensures Tagged(w + 8 * k, BlockSize(w) + 8 * k, FreeBit(w), PrevFreeBit(w))
  {
    FlagsOf(w, 2 * k);
  }

  lemma MarkedFreeCell(m: seq<nat>, m': seq<nat>, g: Shape, b: nat, x: nat)
    requires Disjoint(g) && Tile(g, |m|, b) && g.span[b] > 0 && Cell(m, g, b) && Tile(g, |m|, Next(g, b))
    requires Tile(g, |m|, x) && Cell(m, g, x)
    requires MarkedFree(m, m', b, Next(g, b))
    ensures Cell(m', Freed(g, b), x)
  {
    var n := Next(g, b);
    if x != b { Apart(g, |m|, b, x); }
    if PrevFreeBit(m[x + 1]) { TagIndex(m, g, b, x); }
  }

  lemma MarkedFreeWords(m: seq<nat>, m': seq<nat>, g: Shape, b: nat)
    requires Tiles(g, |m|) && Words(m, g) && b in g.span && g.span[b] > 0
    requires MarkedFree(m, m', b, Next(g, b))
    ensures Words(m', Freed(g, b))
  {
    DisjointIff(g);
    assert Tile(g, |m|, b) && Cell(m, g, b) && Tile(g, |m|, Next(g, b));
    forall x | x in g.span ensures Cell(m', Freed(g, b), x) {
      assert Tile(g, |m|, x) && Cell(m, g, x);
      MarkedFreeCell(m, m', g, b, x);
    }
  }

  lemma MarkedUsedCell(m: seq<nat>, m': seq<nat>, g: Shape, b: nat, x: nat)
    requires Disjoint(g) && Tile(g, |m|, b) && g.span[b] > 0 && Cell(m, g, b) && Tile(g, |m|, Next(g, b))
    requires Tile(g, |m|, x) && Cell(m, g, x) && b in g.free
    requires MarkedUsed(m, m', b, Next(g, b))
    ensures Cell(m', Taken(g, b), x)
  {
    var n := Next(g, b);
    if x != b { Apart(g, |m|, b, x); }
    if PrevFreeBit(m[x + 1]) { TagIndex(m, g, b, x); }
  }

  lemma MarkedUsedWords(m: seq<nat>, m': seq<nat>, g: Shape, b: nat)
    requires Tiles(g, |m|) && Words(m, g) && b in g.free && g.span[b] > 0
    requires MarkedUsed(m, m', b, Next(g, b))
    ensures Words(m', Taken(g, b))
  {
    DisjointIff(g);
    assert Tile(g, |m|, b) && Cell(m, g, b) && Tile(g, |m|, Next(g, b));
    forall x | x in g.span ensures Cell(m', Taken(g, b), x) {
      assert Tile(g, |m|, x) && Cell(m, g, x);
      MarkedUsedCell(m, m', g, b, x);
    }
  }

  lemma SplitTag(m: seq<nat>, m': seq<nat>, g: Shape, b: nat, k: nat, x: nat)
    requires Disjoint(g) && Tile(g, |m|, b) && g.span[b] > 0 && Cell(m, g, b) && Tile(g, |m|, Next(g, b))
    requires 3 <= k && k + 4 <= g.span[b] && b + 1 + k !in g.span && b + 1 + k !in g.free
    requires Tile(g, |m|, x) && Cell(m, g, x)
    requires SplitAt(m, m', b, k, Next(g, b), b in g.free)
    ensures TagBehind(m', Split(g, b, k), x)
  {
    if x != b {
      Apart(g, |m|, b, x);
      if x != Next(g, b) {
        assert m'[x + 1] == m[x + 1];
        if PrevFreeBit(m[x + 1]) {
          TagIndex(m, g, b, x);
          assert m'[x] == m[x];
        }
      }
    } else if PrevFreeBit(m[x + 1]) {
      assert m'[x] == m[x];
    }
  }

  lemma SplitAhead(m: seq<nat>, m': seq<nat>, g: Shape, b: nat, k: nat, x: nat)
    requires Disjoint(g) && Tile(g, |m|, b) && g.span[b] > 0 && Cell(m, g, b) && Tile(g, |m|, Next(g, b))
    requires 3 <= k && k + 4 <= g.span[b] && b + 1 + k !in g.span && b + 1 + k !in g.free
    requires Tile(g, |m|, x) && Cell(m, g, x)
    requires SplitAt(m, m', b, k, Next(g, b), b in g.free)
    ensures TagAhead(m', Split(g, b, k), x)
  {
    if x != b {
      Apart(g, |m|, b, x);
      if g.span[x] > 0 {
        assert m'[Next(g, x)] == m[Next(g, x)];
        assert Next(g, x) != b ==> m'[Next(g, x) + 1] == m[Next(g, x) + 1];
      }
    }
  }

  lemma SplitSize(m: seq<nat>, m': seq<nat>, g: Shape, b: nat, k: nat, x: nat)
    requires Disjoint(g) && Tile(g, |m|, b) && g.span[b] > 0 && Cell(m, g, b) && Tile(g, |m|, Next(g, b))
    requires 3 <= k && k + 4 <= g.span[b] && b + 1 + k !in g.span && b + 1 + k !in g.free
    requires Tile(g, |m|, x) && Cell(m, g, x)
    requires SplitAt(m, m', b, k, Next(g, b), b in g.free)
    ensures x in Split(g, b, k).span && x + 1 < |m'| && BlockSize(m'[x + 1]) == 8 * Split(g, b, k).span[x]
    ensures FreeBit(m'[x + 1]) <==> x in Split(g, b, k).free
  {
    if x != b { Apart(g, |m|, b, x); }
  }

  lemma SplitCell(m: seq<nat>, m': seq<nat>, g: Shape, b: nat, k: nat, x: nat)
    requires Disjoint(g) && Tile(g, |m|, b) && g.span[b] > 0 && Cell(m, g, b) && Tile(g, |m|, Next(g, b))
    requires 3 <= k && k + 4 <= g.span[b] && b + 1 + k !in g.span && b + 1 + k !in g.free
    requires Tile(g, |m|, x) && Cell(m, g, x)
    requires SplitAt(m, m', b, k, Next(g, b), b in g.free)
    ensures Cell(m', Split(g, b, k), x)
  {
    SplitSize(m, m', g, b, k, x);
    SplitTag(m, m', g, b, k, x);
    SplitAhead(m, m', g, b, k, x);
  }

  lemma SplitRestCell(m: seq<nat>, m': seq<nat>, g: Shape, b: nat, k: nat)
    requires Tile(g, |m|, b) && g.span[b] > 0 && Cell(m, g, b)
    requires 3 <= k && k + 4 <= g.span[b]
    requires SplitAt(m, m', b, k, Next(g, b), b in g.free)
    ensures Cell(m', Split(g, b, k), b + 1 + k)
  {
  }

  lemma SplitAnyCell(m: seq<nat>, m': seq<nat>, g: Shape, b: nat, k: nat, x: nat)
    requires Tiles(g, |m|) && Words(m, g) && b in g.span && 3 <= k && k + 4 <= g.span[b]
    requires SplitAt(m, m', b, k, Next(g, b), b in g.free) && b + 1 + k !in g.span
    requires x in Split(g, b, k).span
    ensures Cell(m', Split(g, b, k), x)
  {
    DisjointIff(g);
    assert Tile(g, |m|, b) && Cell(m, g, b);
    assert Tile(g, |m|, Next(g, b));
    if x == b + 1 + k {
      SplitRestCell(m, m', g, b, k);
    } else {
      assert Tile(g, |m|, x) && Cell(m, g, x);
      SplitCell(m, m', g, b, k, x);
    }
  }

  lemma SplitWords(m: seq<nat>, m': seq<nat>, g: Shape, b: nat, k: nat)
    requires Tiles(g, |m|) && Words(m, g) && b in g.span && 3 <= k && k + 4 <= g.span[b]
    requires SplitAt(m, m', b, k, Next(g, b), b in g.free)
    ensures Words(m', Split(g, b, k))
  {
    DisjointIff(g);
    SplitDisjoint(g, b, k);
    forall x | x in Split(g, b, k).span ensures Cell(m', Split(g, b, k), x) {
      SplitAnyCell(m, m', g, b, k, x);
    }
  }

  lemma AbsorbedTag(m: seq<nat>, m': seq<nat>, g: Shape, b: nat, x: nat)
    requires Disjoint(g) && Tile(g, |m|, b) && g.span[b] > 0 && Cell(m, g, b)
    requires Tile(g, |m|, Next(g, b)) && g.span[Next(g, b)] > 0 && Cell(m, g, Next(g, b)) && Next(g, b) in g.free
    requires Tile(g, |m|, Next(g, Next(g, b)))
    requires Tile(g, |m|, x) && Cell(m, g, x) && x != Next(g, b)
    requires AbsorbedAt(m, m', b, Next(g, b), Next(g, Next(g, b)), b in g.free)
    ensures TagBehind(m', Absorbed(g, b), x)
  {
    var q := Next(g, b);
    if x == b {
      if PrevFreeBit(m[x + 1]) { assert m'[x] == m[x]; }
    } else {
      Apart(g, |m|, b, x);
      Apart(g, |m|, q, x);
      if x != Next(g, q) {
        assert m'[x + 1] == m[x + 1];
        if PrevFreeBit(m[x + 1]) {
          TagIndex(m, g, b, x);
          TagIndex(m, g, q, x);
          assert m'[x] == m[x];
        }
      }
    }
  }

  lemma AbsorbedAhead(m: seq<nat>, m': seq<nat>, g: Shape, b: nat, x: nat)
    requires Disjoint(g) && Tile(g, |m|, b) && g.span[b] > 0 && Cell(m, g, b)
    requires Tile(g, |m|, Next(g, b)) && g.span[Next(g, b)] > 0 && Cell(m, g, Next(g, b)) && Next(g, b) in g.free
    requires Tile(g, |m|, Next(g, Next(g, b)))
    requires Tile(g, |m|, x) && Cell(m, g, x) && x != Next(g, b)
    requires AbsorbedAt(m, m', b, Next(g, b), Next(g, Next(g, b)), b in g.free)
    ensures TagAhead(m', Absorbed(g, b), x)
  {
    var q := Next(g, b);
    if x != b {
      Apart(g, |m|, b, x);
      Apart(g, |m|, q, x);
      if g.span[x] > 0 {
        assert m'[Next(g, x)] == m[Next(g, x)];
        assert Next(g, x) != b ==> m'[Next(g, x) + 1] == m[Next(g, x) + 1];
      }
    }
  }

  lemma AbsorbedSize(m: seq<nat>, m': seq<nat>, g: Shape, b: nat, x: nat)
    requires Disjoint(g) && Tile(g, |m|, b) && g.span[b] > 0 && Cell(m, g, b)
    requires Tile(g, |m|, Next(g, b)) && g.span[Next(g, b)] > 0 && Cell(m, g, Next(g, b)) && Next(g, b) in g.free
    requires Tile(g, |m|, Next(g, Next(g, b)))
    requires Tile(g, |m|, x) && Cell(m, g, x) && x != Next(g, b)
    requires AbsorbedAt(m, m', b, Next(g, b), Next(g, Next(g, b)), b in g.free)
    ensures x in Absorbed(g, b).span && x + 1 < |m'| && BlockSize(m'[x + 1]) == 8 * Absorbed(g, b).span[x]
    ensures FreeBit(m'[x + 1]) <==> x in Absorbed(g, b).free
  {
    var q := Next(g, b);
    if x != b {
      Apart(g, |m|, b, x);
      Apart(g, |m|, q, x);
    }
  }

  lemma AbsorbedCell(m: seq<nat>, m': seq<nat>, g: Shape, b: nat, x: nat)
    requires Disjoint(g) && Tile(g, |m|, b) && g.span[b] > 0 && Cell(m, g, b)
    requires Tile(g, |m|, Next(g, b)) && g.span[Next(g, b)] > 0 && Cell(m, g, Next(g, b)) && Next(g, b) in g.free
    requires Tile(g, |m|, Next(g, Next(g, b)))
    requires Tile(g, |m|, x) && Cell(m, g, x) && x != Next(g, b)
    requires AbsorbedAt(m, m', b, Next(g, b), Next(g, Next(g, b)), b in g.free)
    ensures Cell(m', Absorbed(g, b), x)
  {
    AbsorbedSize(m, m', g, b, x);
    AbsorbedTag(m, m', g, b, x);
    AbsorbedAhead(m, m', g, b, x);
  }

  lemma AbsorbedWords(m: seq<nat>, m': seq<nat>, g: Shape, b: nat)
    requires Tiles(g, |m|) && Words(m, g) && b in g.span && g.span[b] > 0
    requires Next(g, b) in g.free && g.span[Next(g, b)] > 0
    requires AbsorbedAt(m, m', b, Next(g, b), Next(g, Next(g, b)), b in g.free)
    ensures Words(m', Absorbed(g, b))
  {
    DisjointIff(g);
    var q := Next(g, b);
    assert Tile(g, |m|, b) && Cell(m, g, b) && Tile(g, |m|, q) && Cell(m, g, q) && Tile(g, |m|, Next(g, q));
    forall x | x in Absorbed(g, b).span ensures Cell(m', Absorbed(g, b), x) {
      assert Tile(g, |m|, x) && Cell(m, g, x);
      AbsorbedCell(m, m', g, b, x);
    }
  }
}
