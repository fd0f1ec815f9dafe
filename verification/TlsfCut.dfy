/** What tlsf_realloc does with a request that adjusts to 0: block_trim_used at size 0 leaves a block
    without payload.  Such a block is a sentinel: it closes the pool, and the rest begins another. */
module TlsfCut {
  import opened TlsfMapping
  import opened TlsfLists
  import opened TlsfTiling
  import opened TlsfState
  import opened TlsfPools

  /** Block `b` of pool `s` becomes a sentinel, what is behind its header a free block of a new pool. */
  function CutAt(g: Shape, s: nat, b: nat): Shape
    requires b in g.span && g.span[b] > 0 && s in g.pools
  {
    Shape(g.span[b := 0][b + 1 := g.span[b] - 1], g.free + {b + 1}, g.pools[s := b][b + 1 := g.pools[s]])
  }

  /** The words block_split at size 0 and block_set_prev_used leave. */
  ghost predicate CutWords(m: seq<nat>, m': seq<nat>, b: nat, n: nat) {
    && b + 5 <= n && n + 1 < |m| && Same(m, m', {b + 1, b + 2, n, n + 1})
    && Tagged(m'[b + 1], 0, false, PrevFreeBit(m[b + 1]))
    && Tagged(m'[b + 2], 8 * (n - b - 2), true, false)
    && m'[n] == b + 1 && Retagged(m[n + 1], m'[n + 1], FreeBit(m[n + 1]), true)
  }

  // ---------------------------------------------------------------- one block, one pool

  /** No pool starts between the start of a pool and its sentinel. */
  lemma {:induction false} NoPoolWithin(g: Shape, len: nat, s: nat, t: nat, x: nat)
    requires AllTiles(g, len) && Disjoint(g) && Pool(g, s) && Pool(g, t)
    requires x in g.span && s <= x < t < g.pools[s]
    ensures false
    decreases t - x
  {
    assert Tile(g, len, x);
    var y := Next(g, x);
    assert Tile(g, len, y);
    NoPoolWithin(g, len, s, t, y);
  }

  /** A block with payload lies in no second pool. */
  lemma OtherPool(g: Shape, len: nat, s: nat, b: nat, t: nat)
    requires AllTiles(g, len) && Disjoint(g) && Pool(g, s) && Pool(g, t) && t != s
    requires b in g.span && s <= b < g.pools[s]
    ensures b < t || g.pools[t] < b
  {
    if t <= b <= g.pools[t] {
      if s < t { NoPoolWithin(g, len, s, t, s); } else if s < g.pools[t] { NoPoolWithin(g, len, t, s, t); }
    }
  }

  /** The pool of a block with payload. */
  lemma OwnPool(g: Shape, len: nat, b: nat) returns (s: nat)
    requires Tiles(g, len) && b in g.span && g.span[b] > 0
    ensures s in g.pools && Pool(g, s) && s <= b < g.pools[s]
  {
    assert Tile(g, len, b);
    s :| s in g.pools && s <= b <= g.pools[s];
    assert Pool(g, s);
  }

  // ---------------------------------------------------------------- the layout

  lemma CutDisjoint(g: Shape, s: nat, b: nat)
    requires Disjoint(g) && b in g.span && g.span[b] > 0 && s in g.pools
    ensures Disjoint(CutAt(g, s, b)) && b + 1 !in g.span
  {
    var g' := CutAt(g, s, b);
    forall x, y | x in g'.span && y in g'.span && x < y ensures x + 1 + g'.span[x] <= y {
    }
  }

  lemma CutPool(g: Shape, len: nat, s: nat, b: nat, t: nat)
    requires AllTiles(g, len) && Disjoint(g) && AllPools(g) && b in g.span && 4 <= g.span[b] && b + 1 !in g.span
    requires s in g.pools && s <= b < g.pools[s] && t in CutAt(g, s, b).pools
    ensures Pool(CutAt(g, s, b), t)
  {
    assert Pool(g, s) && Tile(g, len, b);
    assert b + 1 in g.pools ==> Pool(g, b + 1);
    if t != s && t != b + 1 {
      assert Pool(g, t);
      OtherPool(g, len, s, b, t);
    }
  }

  lemma CutTile(g: Shape, len: nat, s: nat, b: nat, x: nat)
    requires AllTiles(g, len) && Disjoint(g) && AllPools(g) && b in g.span && 4 <= g.span[b] && b !in g.free
    requires s in g.pools && s <= b < g.pools[s] && b + 1 !in g.span && x in CutAt(g, s, b).span
    ensures Tile(CutAt(g, s, b), len, x)
  {
    var g' := CutAt(g, s, b);
    assert Tile(g, len, b) && Pool(g, s);
    assert b + 1 in g.pools ==> Pool(g, b + 1);
    CutInPool(g, len, s, b, x);
    if x != b + 1 && x != b {
      assert Tile(g, len, x);
      if g.span[x] > 0 { assert Next(g, x) in g.span; }
    }
  }

  lemma CutInPool(g: Shape, len: nat, s: nat, b: nat, x: nat)
    requires AllTiles(g, len) && Disjoint(g) && b in g.span && 4 <= g.span[b]
    requires s in g.pools && s <= b < g.pools[s] && b + 1 !in g.span && b + 1 !in g.pools && Pool(g, s)
    requires x in CutAt(g, s, b).span
    ensures InPool(CutAt(g, s, b), x)
  {
    var g' := CutAt(g, s, b);
    if x == b + 1 {
      assert b + 1 in g'.pools && g'.pools[b + 1] == g.pools[s];
    } else {
      assert Tile(g, len, x);
      var t :| t in g.pools && t <= x <= g.pools[t];
      var u := if t == s && b < x then b + 1 else t;
      assert u in g'.pools && u <= x <= g'.pools[u];
    }
  }

  lemma CutTiles(g: Shape, len: nat, s: nat, b: nat)
    requires Tiles(g, len) && b in g.span && 4 <= g.span[b] && b !in g.free && s in g.pools && s <= b < g.pools[s]
    ensures Tiles(CutAt(g, s, b), len) && b + 1 !in g.span
  {
    var g' := CutAt(g, s, b);
    DisjointIff(g);
    CutDisjoint(g, s, b);
    DisjointIff(g');
    forall x | x in g'.span ensures Tile(g', len, x) { CutTile(g, len, s, b, x); }
    forall t | t in g'.pools ensures Pool(g', t) { CutPool(g, len, s, b, t); }
  }

  // ---------------------------------------------------------------- the words

  lemma CutTag(m: seq<nat>, m': seq<nat>, g: Shape, s: nat, b: nat, x: nat)
    requires Disjoint(g) && Tile(g, |m|, b) && 4 <= g.span[b] && b !in g.free && Tile(g, |m|, Next(g, b))
    requires s in g.pools
    requires Tile(g, |m|, x) && Cell(m, g, x) && b + 1 !in g.span && CutWords(m, m', b, Next(g, b))
    ensures TagBehind(m', CutAt(g, s, b), x)
  {
    if x != b { Apart(g, |m|, b, x); }
    if x != Next(g, b) && PrevFreeBit(m[x + 1]) {
      TagIndex(m, g, b, x);
      assert m'[x] == m[x];
    }
  }

  lemma CutAhead(m: seq<nat>, m': seq<nat>, g: Shape, s: nat, b: nat, x: nat)
    requires Disjoint(g) && Tile(g, |m|, b) && 4 <= g.span[b] && b !in g.free && Tile(g, |m|, Next(g, b))
    requires s in g.pools
    requires Tile(g, |m|, x) && Cell(m, g, x) && b + 1 !in g.span && CutWords(m, m', b, Next(g, b)) && b + 1 !in g.free
    ensures TagAhead(m', CutAt(g, s, b), x)
  {
    if x != b {
      Apart(g, |m|, b, x);
      if g.span[x] > 0 {
        assert m'[Next(g, x)] == m[Next(g, x)];
        assert Next(g, x) != b ==> m'[Next(g, x) + 1] == m[Next(g, x) + 1];
      }
    }
  }

  lemma CutCell(m: seq<nat>, m': seq<nat>, g: Shape, s: nat, b: nat, x: nat)
    requires Disjoint(g) && Tile(g, |m|, b) && 4 <= g.span[b] && b !in g.free && Tile(g, |m|, Next(g, b))
    requires s in g.pools
    requires Tile(g, |m|, x) && Cell(m, g, x) && b + 1 !in g.span && CutWords(m, m', b, Next(g, b)) && b + 1 !in g.free
    ensures Cell(m', CutAt(g, s, b), x)
  {
    CutTag(m, m', g, s, b, x);
    CutAhead(m, m', g, s, b, x);
    if x != b { Apart(g, |m|, b, x); }
  }

  lemma CutTilingWords(m: seq<nat>, m': seq<nat>, g: Shape, s: nat, b: nat)
    requires Tiling(m, g) && b in g.span && 4 <= g.span[b] && b !in g.free && s in g.pools && b + 1 !in g.span
    requires CutWords(m, m', b, Next(g, b))
    ensures Words(m', CutAt(g, s, b))
  {
    var g' := CutAt(g, s, b);
    DisjointIff(g);
    assert Tile(g, |m|, b) && Tile(g, |m|, Next(g, b));
    forall x | x in g'.span ensures Cell(m', g', x) {
      if x != b + 1 {
        assert Tile(g, |m|, x) && Cell(m, g, x);
        CutCell(m, m', g, s, b, x);
      }
    }
  }

  // ---------------------------------------------------------------- the heap

  /** The heap stays sound: the block is lost to its owner, the rest is free and touches no free block
      before it. */
  lemma CutKeeps(m: seq<nat>, m': seq<nat>, c: Control, g: Shape, links: Links, s: nat, b: nat)
    requires Consistent(m, c, g, links) && Coalesced(g) && b in Live(g) && 4 <= g.span[b]
    requires s in g.pools && s <= b < g.pools[s] && CutWords(m, m', b, Next(g, b))
    ensures Consistent(m', c, CutAt(g, s, b), links) && b + 1 !in g.span && LeftClean(CutAt(g, s, b), b + 1)
    ensures Live(CutAt(g, s, b)) == Live(g) - {b} && Used(CutAt(g, s, b), Live(g) - {b})
    ensures Kept(m, m', Live(g) - {b})
  {
    var n, changed := Next(g, b), {b + 1, b + 2, Next(g, b), Next(g, b) + 1};
    CutTiles(g, |m|, s, b);
    CutTilingWords(m, m', g, s, b);
    FiledFrame(g, CutAt(g, s, b), links, links);
    NotWithin(m, g, b, links.list.Keys);
    NotWithin(m, g, b, g.span.Keys);
    RegionLinked(m, m', c.blocks, g, links, b, n, changed);
    RegionKept(m, m', g, Live(g) - {b}, b, n, changed);
    CutClean(g, |m|, s, b);
  }

  lemma CutClean(g: Shape, len: nat, s: nat, b: nat)
    requires AllTiles(g, len) && Coalesced(g) && b in Live(g) && s in g.pools && b + 1 !in g.span
    ensures LeftClean(CutAt(g, s, b), b + 1)
  {
    var g' := CutAt(g, s, b);
    forall x | x in g'.free && x != b + 1 ensures Lone(g', x) { assert Lone(g, x) && Tile(g, len, x); }
  }

  /** What a realloc to a size that adjusts to 0 leaves of the block at `p`: blocks of 24 bytes cannot be split
      and stay as they are; any other is left without payload, as the sentinel of what is before it. */
  ghost predicate TrimmedToNothing(m: seq<nat>, g: Shape, p: nat, m': seq<nat>, g': Shape) {
    && 2 <= p && p - 2 in g.span && p - 1 < |m'|
    && if g.span[p - 2] < 4 then g' == g && m' == m
       else
         && BlockSize(m'[p - 1]) == 0
         && Live(g') == Live(g) - {p - 2} && Kept(m, m', Live(g) - {p - 2})
         && exists s :: s in g.pools && s <= p - 2 < g.pools[s] && g'.pools == g.pools[s := p - 2][p - 1 := g.pools[s]]
  }

  /** The block behind is used, or both together are too small. */
  predicate MustMove(g: Shape, b: nat, adjust: nat)
    requires b in g.span
  {
    adjust > 8 * g.span[b] &&
      (Next(g, b) !in g.free || Next(g, b) !in g.span || adjust > 8 * (g.span[b] + 1 + g.span[Next(g, b)]))
  }

  /** The block cannot have the new size where it is, and there is no room for it elsewhere. */
  ghost predicate Stuck(g: Shape, b: nat, adjust: nat)
    requires b in g.span
  {
    MustMove(g, b, adjust) && !HasRoom(g, adjust)
  }
}
