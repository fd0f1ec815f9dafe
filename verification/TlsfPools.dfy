/** Adding and removing whole pools, and what is left when everything has been freed. */
module TlsfPools {
  import Bits
  import opened TlsfMapping
  import opened TlsfLists
  import opened TlsfTiling
  import opened TlsfState

  // ---------------------------------------------------------------- adding a pool

  const POOL_OVERHEAD := 2 * BLOCK_OVERHEAD

  /** The subtraction wraps around in 64 bits. */
  function PoolSize(bytes: nat): nat
    requires bytes < SIZE_T
  {
    AlignDown((bytes + SIZE_T - POOL_OVERHEAD) % SIZE_T, ALIGN_SIZE)
  }

  predicate AcceptsPool(address: nat, bytes: nat)
    requires bytes < SIZE_T
  {
    address % ALIGN_SIZE == 0 && BLOCK_SIZE_MIN <= PoolSize(bytes) <= BLOCK_SIZE_MAX
  }

  /** The limit the size test lets through is the one size without a list. */
  lemma AcceptedHasList(address: nat, bytes: nat)
    requires bytes < SIZE_T && AcceptsPool(address, bytes)
    ensures MappingInsert(PoolSize(bytes)).fl < FL_INDEX_COUNT <==> PoolSize(bytes) != BLOCK_SIZE_MAX
    ensures PoolSize(bytes) == BLOCK_SIZE_MAX <==> bytes / 8 == (BLOCK_SIZE_MAX + POOL_OVERHEAD) / 8
  {
    ClassHoldsSize(PoolSize(bytes));
    PoolSizeWords(bytes);
  }

  /** Such a request: it is let through, and its class is beyond the table. */
  lemma LimitPool(bytes: nat)
    requires bytes == 0x1_0000_0010
    ensures AcceptsPool(40, bytes) && PoolSize(bytes) == BLOCK_SIZE_MAX
    ensures MappingInsert(PoolSize(bytes)).fl >= FL_INDEX_COUNT
  {
    LimitPoolSize();
    AcceptedHasList(40, bytes);
  }

  lemma LimitPoolSize()
    ensures PoolSize(0x1_0000_0010) == BLOCK_SIZE_MAX
  {
  }

  lemma PoolSizeWords(bytes: nat)
    requires bytes < SIZE_T && BLOCK_SIZE_MIN <= PoolSize(bytes) <= BLOCK_SIZE_MAX
    ensures PoolSize(bytes) % 8 == 0 && bytes / 8 == PoolSize(bytes) / 8 + 2
  {
    if bytes < 16 { assert false; }
    Bits.ModUnique(bytes + SIZE_T - 16, SIZE_T, 1, bytes - 16);
    AlignDownIsLargest(bytes - 16, 8);
  }

  /** The words [from, from + count) are memory that no block and no control word occupies. */
  ghost predicate Vacant(g: Shape, len: nat, from: nat, count: nat) {
    && 5 <= from && from + count <= len
    && forall x :: x in g.span ==> x + 2 + g.span[x] <= from || from + count <= x + 1
  }

  /** A new pool: one free block of `n` payload words, and a sentinel. */
  function PoolAdded(g: Shape, b: nat, n: nat): Shape {
    Shape(g.span[b := n][b + 1 + n := 0], g.free + {b}, g.pools[b := b + 1 + n])
  }

  ghost predicate PoolWords(m: seq<nat>, m': seq<nat>, b: nat, n: nat) {
    && b + n + 2 < |m| && Same(m, m', {b + 1, b + 1 + n, b + 2 + n})
    && Tagged(m'[b + 1], 8 * n, true, false) && Tagged(m'[b + 2 + n], 0, false, true) && m'[b + 1 + n] == b
  }

  lemma AddedApart(g: Shape, len: nat, b: nat, n: nat, x: nat)
    requires Vacant(g, len, b + 1, n + 2) && 3 <= n && Disjoint(g) && Tile(g, len, x)
    ensures x + 1 + g.span[x] <= b || b + 2 + n <= x
    ensures g.span[x] > 0 ==> Next(g, x) != b
  {
    if g.span[x] > 0 {
      var y := Next(g, x);
      assert y in g.span;
    }
  }

  lemma AddedInPool(g: Shape, len: nat, b: nat, n: nat, x: nat)
    requires Vacant(g, len, b + 1, n + 2) && AllPools(g) && Tile(g, len, x)
    ensures b !in g.pools && InPool(PoolAdded(g, b, n), x)
  {
    assert b in g.pools ==> Pool(g, b);
    var s :| s in g.pools && s <= x <= g.pools[s];
    assert s in PoolAdded(g, b, n).pools;
  }

  lemma AddedTile(g: Shape, len: nat, b: nat, n: nat, x: nat)
    requires Vacant(g, len, b + 1, n + 2) && 3 <= n && Disjoint(g) && AllPools(g) && Tile(g, len, x)
    ensures Tile(PoolAdded(g, b, n), len, x)
  {
    AddedApart(g, len, b, n, x);
    AddedInPool(g, len, b, n, x);
    if g.span[x] > 0 {
      assert Next(g, x) in g.span;
    }
  }

  lemma AddedNewTiles(g: Shape, len: nat, b: nat, n: nat)
    requires Vacant(g, len, b + 1, n + 2) && 3 <= n && 8 * n < BLOCK_SIZE_MAX && Disjoint(g) && AllPools(g)
    requires g.free <= g.span.Keys
    ensures Tile(PoolAdded(g, b, n), len, b) && Tile(PoolAdded(g, b, n), len, b + 1 + n)
  {
    var g' := PoolAdded(g, b, n);
    assert b in g'.pools && g'.pools[b] == b + 1 + n;
    assert b + 1 + n in g.pools ==> Pool(g, b + 1 + n);
  }

  lemma AddedDisjoint(g: Shape, len: nat, b: nat, n: nat)
    requires Vacant(g, len, b + 1, n + 2) && 3 <= n && AllTiles(g, len) && Disjoint(g)
    ensures Disjoint(PoolAdded(g, b, n))
  {
    var g' := PoolAdded(g, b, n);
    forall x, y | x in g'.span && y in g'.span && x < y ensures x + 1 + g'.span[x] <= y {
      if x in g.span { assert Tile(g, len, x); AddedApart(g, len, b, n, x); }
      if y in g.span { assert Tile(g, len, y); AddedApart(g, len, b, n, y); }
    }
  }

  lemma AddedPool(g: Shape, len: nat, b: nat, n: nat, s: nat)
    requires Vacant(g, len, b + 1, n + 2) && 3 <= n && AllTiles(g, len) && Disjoint(g) && Pool(g, s)
    ensures Pool(PoolAdded(g, b, n), s)
  {
    var g' := PoolAdded(g, b, n);
    assert Tile(g, len, s) && Tile(g, len, g.pools[s]);
    AddedApart(g, len, b, n, s);
    AddedApart(g, len, b, n, g.pools[s]);
    PoolOutside(g, len, b, n, s);
  }

  /** An existing pool lies on one side of the new one: its blocks leave no room for it. */
  lemma {:induction false} PoolOutside(g: Shape, len: nat, b: nat, n: nat, s: nat)
    requires Vacant(g, len, b + 1, n + 2) && 3 <= n && AllTiles(g, len) && Disjoint(g) && Pool(g, s)
    ensures g.pools[s] < b || b + 1 + n < s
  {
    if s < b && b < g.pools[s] {
      WalkPast(g, len, b, n, s, s);
    }
    assert Tile(g, len, s) && Tile(g, len, g.pools[s]);
    AddedApart(g, len, b, n, s);
    AddedApart(g, len, b, n, g.pools[s]);
  }

  /** Walking from a block before the new pool never gets past it. */
  lemma {:induction false} WalkPast(g: Shape, len: nat, b: nat, n: nat, s: nat, x: nat)
    requires Vacant(g, len, b + 1, n + 2) && 3 <= n && AllTiles(g, len) && Disjoint(g) && Pool(g, s)
    requires x in g.span && s <= x < b < g.pools[s]
    ensures false
    decreases b - x
  {
    assert Tile(g, len, x);
    assert g.span[x] > 0;
    AddedApart(g, len, b, n, x);
    var y := Next(g, x);
    assert Tile(g, len, y);
    AddedApart(g, len, b, n, y);
    WalkPast(g, len, b, n, s, y);
  }

  lemma AddedTiles(g: Shape, len: nat, b: nat, n: nat)
    requires Tiles(g, len) && Vacant(g, len, b + 1, n + 2) && 3 <= n && 8 * n < BLOCK_SIZE_MAX
    ensures Tiles(PoolAdded(g, b, n), len)
  {
    DisjointIff(g);
    DisjointIff(PoolAdded(g, b, n));
    var g' := PoolAdded(g, b, n);
    AddedDisjoint(g, len, b, n);
    AddedNewTiles(g, len, b, n);
    forall x | x in g'.span && x in g.span ensures Tile(g', len, x) {
      assert Tile(g, len, x);
      AddedTile(g, len, b, n, x);
    }
    forall s | s in g'.pools ensures Pool(g', s) {
      if s in g.pools {
        assert Pool(g, s);
        AddedPool(g, len, b, n, s);
      } else {
        AddedOwnPool(g, len, b, n);
      }
    }
  }

  lemma AddedOwnPool(g: Shape, len: nat, b: nat, n: nat)
    requires AllTiles(g, len) && Disjoint(g) && Vacant(g, len, b + 1, n + 2) && 3 <= n && 8 * n < BLOCK_SIZE_MAX
    ensures Pool(PoolAdded(g, b, n), b)
  {
    var g' := PoolAdded(g, b, n);
    assert forall x :: x in g'.span && b <= x < g'.pools[b] ==> x == b;
  }

  /** Which words of another block the new pool leaves alone. */
  lemma AddedSameWords(m: seq<nat>, m': seq<nat>, g: Shape, b: nat, n: nat, x: nat)
    requires Vacant(g, |m|, b + 1, n + 2) && 3 <= n && Disjoint(g) && Tile(g, |m|, x) && PoolWords(m, m', b, n)
    ensures m'[x + 1] == m[x + 1] && (x != b + 2 + n ==> m'[x] == m[x])
    ensures forall i :: x + 2 <= i < x + 2 + g.span[x] && i < |m| ==> m'[i] == m[i]
  {
    AddedApart(g, |m|, b, n, x);
  }

  /** The new sentinel is used, so the block behind it reads no boundary tag. */
  lemma AddedBehind(m: seq<nat>, g: Shape, len: nat, b: nat, n: nat, x: nat)
    requires len == |m| && Vacant(g, len, b + 1, n + 2) && 3 <= n && Disjoint(g) && Tile(g, len, x) && Cell(m, g, x)
    requires AllTiles(g, len) && PrevFreeBit(m[x + 1])
    ensures x != b + 2 + n && m[x] != b && m[x] != b + 1 + n
  {
    var y := m[x];
    assert y in g.span && Tile(g, len, y);
    AddedApart(g, len, b, n, y);
  }

  lemma AddedCell(m: seq<nat>, m': seq<nat>, g: Shape, b: nat, n: nat, x: nat)
    requires Vacant(g, |m|, b + 1, n + 2) && 3 <= n && Disjoint(g) && Tile(g, |m|, x) && Cell(m, g, x)
    requires PoolWords(m, m', b, n) && b !in g.span && b + 1 + n !in g.span
    requires AllTiles(g, |m|)
    ensures Cell(m', PoolAdded(g, b, n), x)
  {
    AddedSameWords(m, m', g, b, n, x);
    if PrevFreeBit(m[x + 1]) { AddedBehind(m, g, |m|, b, n, x); }
    if g.span[x] > 0 {
      AddedApart(g, |m|, b, n, x);
      assert Tile(g, |m|, Next(g, x));
      AddedSameWords(m, m', g, b, n, Next(g, x));
      if x in g.free { AddedNext(m, g, |m|, b, n, x); }
    }
  }

  lemma AddedNext(m: seq<nat>, g: Shape, len: nat, b: nat, n: nat, x: nat)
    requires len == |m| && Vacant(g, len, b + 1, n + 2) && 3 <= n && Disjoint(g) && Tile(g, len, x) && Cell(m, g, x)
    requires AllTiles(g, len) && g.span[x] > 0 && x in g.free
    ensures Next(g, x) != b + 2 + n
  {
    assert Tile(g, len, Next(g, x));
    AddedApart(g, len, b, n, x);
  }

  lemma AddedWords(m: seq<nat>, m': seq<nat>, g: Shape, b: nat, n: nat)
    requires Tiling(m, g) && Vacant(g, |m|, b + 1, n + 2) && 3 <= n && PoolWords(m, m', b, n)
    ensures Words(m', PoolAdded(g, b, n))
  {
    DisjointIff(g);
    var g' := PoolAdded(g, b, n);
    forall x | x in g'.span ensures Cell(m', g', x) {
      if x in g.span {
        assert Tile(g, |m|, x) && Cell(m, g, x);
        AddedCell(m, m', g, b, n, x);
      }
    }
  }

  lemma AddedLinked(m: seq<nat>, m': seq<nat>, blocks: seq<nat>, g: Shape, links: Links, b: nat, n: nat)
    requires Tiling(m, g) && Filed(g, links) && Linked(m, blocks, links)
    requires Vacant(g, |m|, b + 1, n + 2) && 3 <= n && PoolWords(m, m', b, n)
    ensures Linked(m', blocks, links)
  {
    DisjointIff(g);
    forall x | x in links.list && x + 3 < |m| ensures m'[x + 2] == m[x + 2] && m'[x + 3] == m[x + 3] {
      assert x in g.span && Tile(g, |m|, x);
      AddedSameWords(m, m', g, b, n, x);
    }
    LinkedFrame(m, m', blocks, links);
  }

  lemma AddedKept(m: seq<nat>, m': seq<nat>, g: Shape, b: nat, n: nat)
    requires Tiling(m, g) && Vacant(g, |m|, b + 1, n + 2) && 3 <= n && PoolWords(m, m', b, n)
    ensures Kept(m, m', Live(g)) && b !in g.span
    ensures Live(PoolAdded(g, b, n)) == Live(g) && Used(PoolAdded(g, b, n), Live(g))
  {
    DisjointIff(g);
    AddedLive(g, b, n);
    forall x, k | x in Live(g) && x + 2 <= k < x + 2 + Live(g)[x] && k < |m| ensures m'[k] == m[k] {
      assert Tile(g, |m|, x);
      AddedSameWords(m, m', g, b, n, x);
    }
  }

  lemma AddedLive(g: Shape, b: nat, n: nat)
    requires forall x :: x in g.span ==> x != b && x != b + 1 + n
    ensures Live(PoolAdded(g, b, n)) == Live(g) && Used(PoolAdded(g, b, n), Live(g))
  {
  }

  /** Adding a pool keeps what holds between steps; its block is free and not yet listed. */
  lemma AddedKeeps(m: seq<nat>, m': seq<nat>, c: Control, g: Shape, links: Links, b: nat, n: nat)
    requires Consistent(m, c, g, links) && Vacant(g, |m|, b + 1, n + 2) && 3 <= n && 8 * n < BLOCK_SIZE_MAX
    requires PoolWords(m, m', b, n)
    ensures Consistent(m', c, PoolAdded(g, b, n), links)
  {
    FiledFrame(g, PoolAdded(g, b, n), links, links);
    AddedTiles(g, |m|, b, n);
    AddedWords(m, m', g, b, n);
    AddedLinked(m, m', c.blocks, g, links, b, n);
    assert b !in links.list && b + 1 + n !in links.list;
  }

  lemma AddedCoalesced(g: Shape, len: nat, b: nat, n: nat)
    requires Coalesced(g) && Tiles(g, len) && Vacant(g, len, b + 1, n + 2) && 3 <= n
    ensures Coalesced(PoolAdded(g, b, n))
  {
    DisjointIff(g);
    var g' := PoolAdded(g, b, n);
    forall x | x in g'.free ensures Lone(g', x) {
      if x != b {
        assert Lone(g, x) && x in g.span && Tile(g, len, x);
        AddedApart(g, len, b, n, x);
      }
    }
  }

  // ---------------------------------------------------------------- removing a pool

  function PoolRemoved(g: Shape, s: nat): Shape
    requires s in g.span && s in g.pools
  {
    Shape(g.span - {s, g.pools[s]}, g.free - {s}, g.pools - {s})
  }

  /** The pool is a single free block. */
  ghost predicate Emptied(g: Shape, s: nat) {
    s in g.pools && s in g.span && s in g.free && Next(g, s) == g.pools[s]
  }

  lemma OnlyBlock(g: Shape, len: nat, s: nat, x: nat)
    requires Disjoint(g) && Pool(g, s) && Emptied(g, s) && Tile(g, len, x) && x != s && x != g.pools[s]
    ensures x < s || g.pools[s] < x
    ensures g.span[x] > 0 ==> Next(g, x) != s && Next(g, x) != g.pools[s]
  {
    assert s in g.pools;
  }

  lemma RemovedTile(g: Shape, len: nat, s: nat, x: nat)
    requires Disjoint(g) && Pool(g, s) && Emptied(g, s) && Tile(g, len, x) && x != s && x != g.pools[s]
    ensures Tile(PoolRemoved(g, s), len, x)
  {
    OnlyBlock(g, len, s, x);
    var t :| t in g.pools && t <= x <= g.pools[t];
    assert t in PoolRemoved(g, s).pools;
  }

  lemma RemovedPool(g: Shape, len: nat, s: nat, t: nat)
    requires AllTiles(g, len) && Disjoint(g) && Pool(g, s) && Emptied(g, s) && Pool(g, t) && t != s
    ensures Pool(PoolRemoved(g, s), t)
  {
    assert Tile(g, len, t) && Tile(g, len, s);
    OnlyBlock(g, len, s, t);
    if g.pools[t] == g.pools[s] {
      // `t` would lie inside the block of the pool, or `s` inside the pool of `t` before its sentinel.
      LastBlock(g, len, s, t, t);
    }
  }

  /** Two pools do not share a sentinel. */
  lemma {:induction false} LastBlock(g: Shape, len: nat, s: nat, t: nat, x: nat)
    requires AllTiles(g, len) && Disjoint(g) && Pool(g, s) && Emptied(g, s) && Pool(g, t) && t != s
    requires g.pools[t] == g.pools[s] && x in g.span && t <= x < g.pools[t] && x != s
    ensures false
    decreases g.pools[t] - x
  {
    assert Tile(g, len, x);
    OnlyBlock(g, len, s, x);
    LastBlock(g, len, s, t, Next(g, x));
  }

  lemma RemovedTiles(g: Shape, len: nat, s: nat)
    requires Tiles(g, len) && Emptied(g, s)
    ensures Tiles(PoolRemoved(g, s), len)
  {
    DisjointIff(g);
    DisjointIff(PoolRemoved(g, s));
    assert Pool(g, s) && Tile(g, len, g.pools[s]);
    forall x | x in PoolRemoved(g, s).span ensures Tile(PoolRemoved(g, s), len, x) {
      assert Tile(g, len, x);
      RemovedTile(g, len, s, x);
    }
    forall t | t in PoolRemoved(g, s).pools ensures Pool(PoolRemoved(g, s), t) {
      assert Pool(g, t);
      RemovedPool(g, len, s, t);
    }
  }

  lemma RemovedCell(m: seq<nat>, g: Shape, s: nat, x: nat)
    requires Disjoint(g) && Pool(g, s) && Emptied(g, s) && Tile(g, |m|, x) && Cell(m, g, x)
    requires x != s && x != g.pools[s] && Tile(g, |m|, g.pools[s])
    ensures Cell(m, PoolRemoved(g, s), x)
  {
    OnlyBlock(g, |m|, s, x);
  }

  /** A pool that is one free block can be dropped without touching memory. */
  lemma RemovedKeeps(m: seq<nat>, c: Control, g: Shape, links: Links, s: nat)
    requires Consistent(m, c, g, links) && Emptied(g, s) && s !in links.list
    ensures Consistent(m, c, PoolRemoved(g, s), links)
    ensures Live(PoolRemoved(g, s)) == Live(g)
  {
    DisjointIff(g);
    assert Pool(g, s) && Tile(g, |m|, g.pools[s]);
    RemovedTiles(g, |m|, s);
    FiledFrame(g, PoolRemoved(g, s), links, links);
    forall x | x in PoolRemoved(g, s).span ensures Cell(m, PoolRemoved(g, s), x) {
      assert Tile(g, |m|, x) && Cell(m, g, x);
      RemovedCell(m, g, s, x);
    }
  }

  lemma RemovedCoalesced(g: Shape, len: nat, s: nat)
    requires Coalesced(g) && Tiles(g, len) && Emptied(g, s)
    ensures Coalesced(PoolRemoved(g, s))
  {
    assert Pool(g, s);
    forall x | x in PoolRemoved(g, s).free ensures Lone(PoolRemoved(g, s), x) {
      assert Lone(g, x) && Tile(g, len, x) && Tile(g, len, g.pools[s]);
    }
  }

  // ---------------------------------------------------------------- when everything has been freed

  /** A pool without a block, just a sentinel: what is left where the first block of a pool was cut. */
  predicate Bare(g: Shape, s: nat) {
    s in g.pools && g.pools[s] == s
  }

  /** With no allocation left every pool is one free block of its original size. */
  lemma FullyCoalesced(g: Shape, len: nat)
    requires Tiles(g, len) && Coalesced(g) && Live(g) == map[]
    ensures forall s :: s in g.pools && !Bare(g, s) ==> Emptied(g, s) && g.span[s] == g.pools[s] - s - 1
    ensures forall s :: s in g.free <==> s in g.pools && !Bare(g, s)
  {
    forall s | s in g.pools && !Bare(g, s) ensures Emptied(g, s) && g.span[s] == g.pools[s] - s - 1 {
      PoolIsEmptied(g, len, s);
    }
    forall x | x in g.free ensures x in g.pools && !Bare(g, x) {
      assert x in g.span && Tile(g, len, x);
      var s :| s in g.pools && s <= x <= g.pools[s];
      assert Pool(g, s) && x != g.pools[s];
      PoolIsEmptied(g, len, s);
      DisjointIff(g);
    }
  }

  lemma PoolIsEmptied(g: Shape, len: nat, s: nat)
    requires Tiles(g, len) && Coalesced(g) && Live(g) == map[] && s in g.pools && !Bare(g, s)
    ensures Emptied(g, s)
  {
    DisjointIff(g);
    assert Pool(g, s) && Tile(g, len, s);
    assert s !in Live(g);
    assert Lone(g, s);
    assert Next(g, s) !in Live(g);
  }

  // ---------------------------------------------------------------- walking a pool

  /** What a pool walker is called with. */
  datatype Visit = Visit(ptr: nat, size: nat, used: bool)

  ghost predicate Visited(g: Shape, b: nat, v: Visit) {
    b in g.span && v == Visit(b + 2, 8 * g.span[b], b !in g.free)
  }

  /** The blocks from `s` up to `b`, each followed by the next. */
  ghost predicate Walked(g: Shape, s: nat, b: nat, v: seq<Visit>)
    decreases |v|
  {
    if v == [] then b == s
    else
      var last := v[|v| - 1];
      && 2 <= last.ptr && Visited(g, last.ptr - 2, last) && Next(g, last.ptr - 2) == b
      && Walked(g, s, last.ptr - 2, v[..|v| - 1])
  }

  function TotalBytes(v: seq<Visit>): nat {
    if v == [] then 0 else TotalBytes(v[..|v| - 1]) + v[|v| - 1].size + BLOCK_OVERHEAD
  }

  /** Sizes and headers add up to where the walk has come: nothing is lost between blocks. */
  lemma {:induction false} WalkedBytes(g: Shape, s: nat, b: nat, v: seq<Visit>)
    requires Walked(g, s, b, v)
    ensures s <= b && TotalBytes(v) == 8 * (b - s)
    decreases |v|
  {
    if v != [] { WalkedBytes(g, s, v[|v| - 1].ptr - 2, v[..|v| - 1]); }
  }
}
